/** ch18/mmap_file_simple.c: print a file region as hex and text, 16 bytes a line, through one line buffer
that is overwritten in place. */
module HexDump {
  import opened Files
  import opened Text

  const RULER := "        +0          +4          " + "+8          +c            0   4   8   c   \n"

  // What a line should be, column by column

  /** "+%06d", cut after 7 characters. */
  function Label(off: nat): (s: string)
    ensures |s| == 7 && s[0] == '+' && forall i :: 1 <= i < 7 ==> IsDigit(s[i])
  {
    ("+" + PadLeft(Decimal(off), 6, '0'))[..7]
  }

  function Printable(b: byte): char {
    if 31 < b < 127 then b as char else '.'
  }

  function Column(off: nat, chunk: seq<byte>, p: nat): char {
    if p < 7 then Label(off)[p]
    else if p == 74 then '\n'
    else if 8 <= p < 56 && (p - 8) / 3 < |chunk| && (p - 8) % 3 == 0 then HexDigit(chunk[(p - 8) / 3] / 16)
    else if 8 <= p < 56 && (p - 8) / 3 < |chunk| && (p - 8) % 3 == 1 then HexDigit(chunk[(p - 8) / 3] % 16)
    else if 58 <= p < 74 && p - 58 < |chunk| then Printable(chunk[p - 58])
    else ' '
  }

  function Line(off: nat, chunk: seq<byte>): string {
    seq(75, p requires 0 <= p => Column(off, chunk, p))
  }

  /** One line for every 16 bytes, the last one for what is left. */
  function Lines(data: seq<byte>, off: nat): seq<string> {
    if data == [] then []
    else
      var m := Min(16, |data|);
      [Line(off, data[..m])] + Lines(data[m..], off + 16)
  }

  // The printer

  /** The C string at the start of a character array: what printf("%s") prints. */
  function CString(s: seq<char>): string {
    if s == [] || s[0] == '\0' then "" else [s[0]] + CString(s[1..])
  }

  lemma {:induction false} CStringStops(s: string, rest: string)
    requires forall i :: 0 <= i < |s| ==> s[i] != '\0'
    requires rest != [] && rest[0] == '\0'
    ensures CString(s + rest) == s
  {
    if s == [] {
      assert s + rest == rest;
    } else {
      assert (s + rest)[1..] == s[1..] + rest;
      CStringStops(s[1..], rest);
    }
  }

  /** The line buffer holds the line for chunk, terminated. */
  ghost predicate Shows(buffer: array<char>, off: nat, chunk: seq<byte>)
    reads buffer
  {
    && buffer.Length == 128 && |chunk| <= 16 && buffer[75] == '\0'
    && forall p :: 0 <= p < 75 ==> buffer[p] == Column(off, chunk, p)
  }

  /** printf of a finished line. */
  method PrintLine(buffer: array<char>, ghost off: nat, ghost chunk: seq<byte>) returns (printed: string)
    requires Shows(buffer, off, chunk)
    ensures printed == Line(off, chunk)
  {
    ghost var line := Line(off, chunk);
    printed := CString(buffer[..]);
    assert buffer[..75] == line && buffer[..] == line + buffer[75..];
    forall p | 0 <= p < 75 ensures line[p] != '\0' {
    }
    CStringStops(line, buffer[75..]);
  }

  /** memset to blanks and the offset at the start of the line. */
  method StartLine(buffer: array<char>, off: nat)
    requires buffer.Length == 128 && buffer[74] == '\n' && buffer[75] == '\0'
    modifies buffer
    ensures Shows(buffer, off, [])
  {
    forall p | 0 <= p < 58 + 16 {
      buffer[p] := ' ';
    }
    var temp := "+" + PadLeft(Decimal(off), 6, '0');
    forall p | 0 <= p < 7 {
      buffer[p] := temp[p];
    }
    forall p | 0 <= p < 75 ensures buffer[p] == Column(off, [], p) {
    }
  }

  /** Hex and text column of one more byte. */
  method AddByte(buffer: array<char>, j: nat, b: byte, ghost off: nat, ghost due: seq<byte>)
    requires j < 16 && j < |due| && b == due[j] && Shows(buffer, off, due[..j])
    modifies buffer
    ensures Shows(buffer, off, due[..j + 1])
  {
    ghost var chunk := due[..j];
    assert due[..j + 1] == chunk + [b];
    buffer[8 + j * 3] := HexDigit(b / 16);
    buffer[8 + j * 3 + 1] := HexDigit(b % 16);
    buffer[58 + j] := if b > 31 && b < 127 then b as char else '.';
    assert forall p :: 0 <= p < 75 && p != 8 + j * 3 && p != 9 + j * 3 && p != 58 + j ==>
      buffer[p] == Column(off, chunk, p);
    forall p | 0 <= p < 75 ensures buffer[p] == Column(off, chunk + [b], p) {
    }
  }

  /** The full line goes out and the next one, labelled next, starts. */
  method NextLine(buffer: array<char>, out: seq<string>, next: nat, ghost mark: nat, ghost due: seq<byte>)
    returns (out': seq<string>)
    requires |due| > 16 && Shows(buffer, mark, due[..16]) && next == mark + 16
    modifies buffer
    ensures Shows(buffer, next, due[16..][..0])
    ensures out' + Lines(due[16..], next) == out + Lines(due, mark)
  {
    var line := PrintLine(buffer, mark, due[..16]);
    out' := out + [line];
    StartLine(buffer, next);
    assert due[16..][..0] == [];
  }

  method LastLine(buffer: array<char>, out: seq<string>, ghost mark: nat, ghost chunk: seq<byte>)
    returns (out': seq<string>)
    requires Shows(buffer, mark, chunk) && chunk != []
    ensures out' == out + Lines(chunk, mark)
  {
    assert chunk[..|chunk|] == chunk;
    var line := PrintLine(buffer, mark, chunk);
    out' := out + [line];
  }

  /** One turn of the loop: if the line is full it goes out, and byte j of what is due joins the line.  mark is
      the offset of the line, due the data from its first byte on. */
  method TakeByte(buffer: array<char>, out: seq<string>, j: nat, b: byte, next: nat, ghost mark: nat,
      ghost due: seq<byte>)
    returns (out': seq<string>, j': nat, ghost mark': nat, ghost due': seq<byte>)
    requires j <= 16 && j < |due| && b == due[j] && next == mark + j && Shows(buffer, mark, due[..j])
    modifies buffer
    ensures 1 <= j' <= 16 && j' <= |due'| && due'[j'..] == due[j + 1..] && mark' + j' == next + 1
    ensures Shows(buffer, mark', due'[..j'])
    ensures out' + Lines(due', mark') == out + Lines(due, mark)
  {
    out', j', mark', due' := out, j, mark, due;
    if j == 16 {
      out' := NextLine(buffer, out, next, mark, due);
      mark', due', j' := next, due[16..], 0;
    }
    AddByte(buffer, j', b, mark', due');
    j' := j' + 1;
  }

  /** hex_dump without the caption: every printf in order. */
  method HexDump(data: seq<byte>, offset: nat) returns (out: seq<string>)
    requires offset + |data| < 0x8000_0000
    ensures out == [RULER] + Lines(data, offset)
  {
    var buffer := new char[128](_ => '\0');
    out := [RULER];
    buffer[58 + 16] := '\n';
    buffer[58 + 17] := '\0';
    StartLine(buffer, offset);
    assert data[..0] == [];
    var i, j := 0, 0;
    ghost var mark: nat, due, goal := offset, data, [RULER] + Lines(data, offset);
    while i < |data|
      invariant i <= |data| && j <= 16 && j <= |due| && (j == 0 ==> i == 0)
      invariant mark + j == offset + i && due[j..] == data[i..]
      invariant out + Lines(due, mark) == goal
      invariant Shows(buffer, mark, due[..j])
    {
      assert due[j] == due[j..][0] == data[i];
      assert due[j + 1..] == due[j..][1..] == data[i + 1..];
      out, j, mark, due := TakeByte(buffer, out, j, data[i], i + offset, mark, due);
      i := i + 1;
    }
    assert due == due[..j];
    if j != 0 {
      out := LastLine(buffer, out, mark, due);
    }
  }

  datatype Outcome = Rejected | Dumped(out: seq<string>)

  /** main: the whole file, or the region given by offset and length if it lies inside the file. */
  method DumpFile(file: seq<byte>, given: bool, offArg: int, lenArg: int) returns (r: Outcome)
    requires (if given then offArg + lenArg else |file|) < 0x8000_0000
    ensures r.Rejected? <==> |file| == 0 || (given && (lenArg <= 0 || offArg < 0 || offArg + lenArg > |file|))
    ensures r.Dumped? ==>
      r.out == [RULER] + (if given then Lines(file[offArg..offArg + lenArg], offArg) else Lines(file, 0))
  {
    if |file| == 0 {
      return Rejected;
    }
    var len, off := |file|, 0;
    if given {
      len := lenArg;
      if len <= 0 {
        return Rejected;
      }
      off := offArg;
      if off < 0 || off + len > |file| {
        return Rejected;
      }
    }
    assert file[0..|file|] == file;
    var out := HexDump(file[off..off + len], off);
    return Dumped(out);
  }

  // Reading the dump back

  /** The bytes in the hex columns of a line, from column j on, up to the first blank one. */
  function DecodeLine(line: string, j: nat): seq<byte>
    requires |line| == 75
    decreases 16 - j
  {
    if j >= 16 || line[8 + 3 * j] == ' ' then []
    else [(16 * HexValue(line[8 + 3 * j]) + HexValue(line[9 + 3 * j])) % 256] + DecodeLine(line, j + 1)
  }

  function Decode(lines: seq<string>): seq<byte>
  {
    if lines == [] || |lines[0]| != 75 then [] else DecodeLine(lines[0], 0) + Decode(lines[1..])
  }

  lemma HexColumns(off: nat, chunk: seq<byte>, j: nat)
    requires j < 16 && |chunk| <= 16
    ensures var line := Line(off, chunk);
      if j < |chunk| then line[8 + 3 * j] == HexDigit(chunk[j] / 16) && line[9 + 3 * j] == HexDigit(chunk[j] % 16)
      else line[8 + 3 * j] == ' '
  {
  }

  lemma HexByte(b: byte)
    ensures HexDigit(b / 16) != ' ' && (16 * HexValue(HexDigit(b / 16)) + HexValue(HexDigit(b % 16))) % 256 == b
  {
    HexRoundTrip(b / 16);
    HexRoundTrip(b % 16);
  }

  /** The hex columns of a line show these bytes and then a blank. */
  ghost predicate ShowsHex(line: string, chunk: seq<byte>) {
    && |line| == 75 && |chunk| <= 16
    && (forall j :: 0 <= j < |chunk| ==>
          line[8 + 3 * j] == HexDigit(chunk[j] / 16) && line[9 + 3 * j] == HexDigit(chunk[j] % 16))
    && (|chunk| < 16 ==> line[8 + 3 * |chunk|] == ' ')
  }

  lemma {:induction false} DecodeColumns(line: string, chunk: seq<byte>, j: nat)
    requires ShowsHex(line, chunk) && j <= |chunk|
    ensures DecodeLine(line, j) == chunk[j..]
    decreases 16 - j
  {
    if j < |chunk| {
      OneColumn(line, j, chunk[j]);
      DecodeColumns(line, chunk, j + 1);
      FirstAndRest(chunk, j);
    }
  }

  lemma OneColumn(line: string, j: nat, b: byte)
    requires |line| == 75 && j < 16
    requires line[8 + 3 * j] == HexDigit(b / 16) && line[9 + 3 * j] == HexDigit(b % 16)
    ensures DecodeLine(line, j) == [b] + DecodeLine(line, j + 1)
  {
    HexByte(b);
  }

  lemma FirstAndRest(chunk: seq<byte>, j: nat)
    requires j < |chunk|
    ensures chunk[j..] == [chunk[j]] + chunk[j + 1..]
  {
  }

  lemma DecodeLineExact(off: nat, chunk: seq<byte>)
    requires |chunk| <= 16
    ensures DecodeLine(Line(off, chunk), 0) == chunk
  {
    forall j | 0 <= j < 16
      ensures var line := Line(off, chunk);
        if j < |chunk| then line[8 + 3 * j] == HexDigit(chunk[j] / 16) && line[9 + 3 * j] == HexDigit(chunk[j] % 16)
        else line[8 + 3 * j] == ' '
    {
      HexColumns(off, chunk, j);
    }
    DecodeColumns(Line(off, chunk), chunk, 0);
  }

  /** Decoding the hex columns of a dump gives back the dumped bytes, whatever they are. */
  lemma {:induction false} RoundTrip(data: seq<byte>, off: nat)
    ensures Decode(Lines(data, off)) == data
    decreases |data|
  {
    var lines := Lines(data, off);
    if data == [] {
      assert lines == [];
    } else {
      var m := Min(16, |data|);
      DecodeLineExact(off, data[..m]);
      RoundTrip(data[m..], off + 16);
      assert data == data[..m] + data[m..];
    }
  }

  function Chunk(data: seq<byte>, k: nat): seq<byte>
    requires 16 * k <= |data|
  {
    data[16 * k..Min(16 * k + 16, |data|)]
  }

  lemma ChunkShift(data: seq<byte>, k: nat)
    requires 16 * (k + 1) < |data|
    ensures Chunk(data[16..], k) == Chunk(data, k + 1)
  {
  }

  lemma {:induction false} LineAt(data: seq<byte>, off: nat, k: nat)
    requires 16 * k < |data|
    ensures k < |Lines(data, off)| && Lines(data, off)[k] == Line(off + 16 * k, Chunk(data, k))
  {
    if k > 0 {
      var rest := data[16..];
      LineAt(rest, off + 16, k - 1);
      ChunkShift(data, k - 1);
      FirstLine(data, off);
    }
  }

  lemma FirstLine(data: seq<byte>, off: nat)
    requires |data| > 16
    ensures Lines(data, off) == [Line(off, data[..16])] + Lines(data[16..], off + 16)
  {
  }

  lemma {:induction false} LineCount(data: seq<byte>, off: nat)
    ensures 16 * |Lines(data, off)| - 16 < |data| <= 16 * |Lines(data, off)|
  {
    if |data| > 16 {
      LineCount(data[16..], off + 16);
    }
  }

  /** The digits of a label are the offset exactly while the offset is below 1000000; beyond that the cut
      after 7 characters loses digits. */
  lemma LabelExact(off: nat)
    ensures Value(Label(off)[1..]) == off <==> off < 1000000
  {
    var d := Decimal(off);
    DecimalLength(off, 6);
    assert Pow10(6) == 1000000 by {
      assert Pow10(3) == 1000;
    }
    if off < 1000000 {
      assert Label(off)[1..] == seq(6 - |d|, _ => '0') + d;
      ValueLeadingZeros(6 - |d|, d);
      ValueDecimal(off);
    } else {
      SixDigits(Label(off)[1..]);
    }
  }

  lemma SixDigits(s: string)
    requires |s| == 6
    ensures Value(s) < 1000000
  {
    ValueBound(s);
    assert Pow10(6) == 1000000 by {
      assert Pow10(3) == 1000;
    }
  }

  lemma {:induction false} ValueBound(s: string)
    ensures Value(s) < Pow10(|s|)
  {
    if s != [] {
      ValueBound(s[..|s| - 1]);
    }
  }

  lemma LineLayout(off: nat, chunk: seq<byte>)
    requires |chunk| <= 16
    ensures var line := Line(off, chunk);
      && line[74] == '\n' && line[..7] == Label(off)
      && (forall p :: 58 <= p < 58 + |chunk| ==> line[p] == Printable(chunk[p - 58]))
      && (forall p :: 8 + 3 * |chunk| <= p < 58 ==> line[p] == ' ')
      && (forall p :: 58 + |chunk| <= p < 74 ==> line[p] == ' ')
  {
  }

  // Every character of a line

  /** The label, the line end and the blanks between the columns. */
  ghost predicate Frame(line: string, label_: nat) {
    && |line| == 75 && line[0] == '+' && line[74] == '\n'
    && (label_ < 1000000 ==> forall k :: 0 <= k < 6 ==> line[6 - k] == "0123456789"[Tens(label_, k) % 10])
    && line[7] == line[56] == line[57] == ' '
    && (forall j :: 0 <= j < 16 ==> line[10 + 3 * j] == ' ')
  }

  /** Both hex digits and the character of byte j. */
  ghost predicate ShowsByte(line: string, j: nat, b: byte) {
    && j < 16 && |line| == 75
    && line[8 + 3 * j] == "0123456789abcdef"[b / 16] && line[9 + 3 * j] == "0123456789abcdef"[b % 16]
    && line[58 + j] == if 32 <= b <= 126 then b as char else '.'
  }

  ghost predicate ShowsNone(line: string, j: nat) {
    j < 16 && |line| == 75 && line[8 + 3 * j] == line[9 + 3 * j] == line[58 + j] == ' '
  }

  /** All 75 characters of the line labelled `label_` that shows these bytes. */
  ghost predicate LooksLike(line: string, label_: nat, bytes: seq<byte>) {
    && |bytes| <= 16 && Frame(line, label_)
    && (forall j: nat :: j < |bytes| ==> ShowsByte(line, j, bytes[j]))
    && (forall j: nat :: |bytes| <= j < 16 ==> ShowsNone(line, j))
  }

  lemma LabelDigits(off: nat, k: nat)
    requires off < 1000000 && k < 6
    ensures Label(off)[6 - k] == "0123456789"[Tens(off, k) % 10]
  {
    DecimalLength(off, 6);
    assert Pow10(6) == 1000000 by {
      assert Pow10(3) == 1000;
    }
    PaddedAt(off, 6, '0', k);
  }

  lemma LineFrame(off: nat, chunk: seq<byte>)
    requires |chunk| <= 16
    ensures Frame(Line(off, chunk), off)
  {
    var line := Line(off, chunk);
    assert forall p :: 0 <= p < 7 ==> line[p] == Label(off)[p];
    if off < 1000000 {
      forall k | 0 <= k < 6 ensures line[6 - k] == "0123456789"[Tens(off, k) % 10] {
        LabelDigits(off, k);
      }
    }
  }

  lemma LineByte(off: nat, chunk: seq<byte>, j: nat)
    requires j < |chunk| <= 16
    ensures ShowsByte(Line(off, chunk), j, chunk[j])
  {
    HexColumns(off, chunk, j);
    HexDigitIs(chunk[j] / 16);
    HexDigitIs(chunk[j] % 16);
    TextColumn(off, chunk, j);
  }

  lemma TextColumn(off: nat, chunk: seq<byte>, j: nat)
    requires |chunk| <= 16 && j < 16
    ensures Line(off, chunk)[58 + j] == if j < |chunk| then Printable(chunk[j]) else ' '
  {
  }

  lemma LineBlank(off: nat, chunk: seq<byte>, j: nat)
    requires |chunk| <= j < 16
    ensures ShowsNone(Line(off, chunk), j)
  {
  }

  lemma LineLooks(off: nat, chunk: seq<byte>)
    requires |chunk| <= 16
    ensures LooksLike(Line(off, chunk), off, chunk)
  {
    LineFrame(off, chunk);
    forall j: nat | j < |chunk| ensures ShowsByte(Line(off, chunk), j, chunk[j]) {
      LineByte(off, chunk, j);
    }
    forall j: nat | |chunk| <= j < 16 ensures ShowsNone(Line(off, chunk), j) {
      LineBlank(off, chunk, j);
    }
  }

  /** Line k of any dump: its label, the two hex digits and the character of each of its bytes, and blanks
      everywhere else. */
  lemma EveryCharacter(data: seq<byte>, off: nat, k: nat)
    requires 16 * k < |data|
    ensures k < |Lines(data, off)|
    ensures LooksLike(Lines(data, off)[k], off + 16 * k, data[16 * k..Min(16 * k + 16, |data|)])
  {
    LineAt(data, off, k);
    LineLooks(off + 16 * k, Chunk(data, k));
  }

  /** The ruler names the columns of bytes 0, 4, 8 and 12 in the hex part and in the text part. */
  lemma RulerAligned()
    ensures |RULER| == 75 && RULER[74] == '\n'
    ensures RULER[8] == '+' && RULER[9] == '0' && RULER[58] == '0'
    ensures RULER[20] == '+' && RULER[21] == '4' && RULER[62] == '4'
    ensures RULER[32] == '+' && RULER[33] == '8' && RULER[66] == '8'
    ensures RULER[44] == '+' && RULER[45] == 'c' && RULER[70] == 'c'
  {
  }

  /** The layout of a dump: ceil(size / 16) lines of 75 characters; line k is labelled offset + 16k, shows
      its own bytes as text and is blank from its last byte on, in both columns, so nothing is left over
      from the line before. */
  lemma Layout(data: seq<byte>, off: nat, k: nat)
    requires off + |data| <= 1000000 && 16 * k < |data|
    ensures |Lines(data, off)| == (|data| + 15) / 16 && k < |Lines(data, off)|
    ensures var line, m := Lines(data, off)[k], Min(16, |data| - 16 * k);
      && |line| == 75 && line[74] == '\n'
      && Value(line[1..7]) == off + 16 * k
      && (forall p :: 58 <= p < 58 + m ==>
            line[p] == if 32 <= data[16 * k + p - 58] <= 126 then data[16 * k + p - 58] as char else '.')
      && (forall p :: 8 + 3 * m <= p < 58 ==> line[p] == ' ')
      && (forall p :: 58 + m <= p < 74 ==> line[p] == ' ')
  {
    LineCount(data, off);
    LineAt(data, off, k);
    LineLayout(off + 16 * k, Chunk(data, k));
    LabelExact(off + 16 * k);
    var line := Lines(data, off)[k];
    assert line[1..7] == line[..7][1..];
  }
}
