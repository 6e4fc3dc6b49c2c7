/** The fd_read and fd_write loops of A_fileio/simpcp2.c (read and write, which move the seek
position) and of solutions_to_assgn/ch18/mt_copy.c (pread and pwrite, which do not).

The loops repeat a short transfer with the same buffer address, the same count and, for pread and
pwrite, the same offset.  The kernel decides how much each call transfers. */
module Transfers {
  import opened Files

  /** What the kernel grants one call: negative for an error, otherwise an upper limit on the bytes
      transferred.  Zero is not a grant: a call returns 0 only when nothing was asked for or nothing
      is there. */
  type Grant = g: int | g != 0 witness 1

  /** Grants by number of the call on a descriptor. */
  type Kernel = nat -> Grant

  /** Return value of one call that asks for n bytes when avail bytes are there. */
  function Amount(g: Grant, n: nat, avail: nat): (r: int)
    ensures r <= n && r <= avail
    ensures r == 0 ==> n == 0 || avail == 0
  {
    if g < 0 then -1 else Min(g, Min(n, avail))
  }

  datatype ReadOut = ReadOut(ret: int, buf: seq<byte>, pos: nat, calls: nat)

  datatype WriteOut = WriteOut(ret: int, file: seq<byte>, pos: nat, calls: nat)

  /** A buffer whose first rd bytes are replaced by those of the file at pos. */
  function Fill(file: seq<byte>, pos: nat, rd: nat, buf: seq<byte>): (r: seq<byte>)
    requires rd <= |buf| && (rd > 0 ==> pos + rd <= |file|)
    ensures |r| == |buf|
    ensures forall i :: 0 <= i < |r| ==> r[i] == if i < rd then file[pos + i] else buf[i]
  {
    seq(|buf|, i requires 0 <= i < |buf| => if i < rd then file[pos + i] else buf[i])
  }

  /** What a read at pos that asks for n bytes returns. */
  function Got(file: seq<byte>, n: nat, pos: nat, g: Grant): (rd: int)
    ensures rd <= n && (rd > 0 ==> pos + rd <= |file|)
  {
    Amount(g, n, Max(0, |file| - pos))
  }

  /** Where the next call starts; moves tells read from pread. */
  function Moved(pos: nat, d: nat, moves: bool): nat { if moves then pos + d else pos }

  /** The rest of fd_read from a point where tr bytes are counted. */
  function ReadLoop(file: seq<byte>, buf: seq<byte>, n: nat, pos: nat, moves: bool,
                    grant: Kernel, call: nat, tr: nat): (out: ReadOut)
    requires n <= |buf|
    ensures out.ret == -1 || out.ret >= tr
    ensures |out.buf| == |buf|
    decreases Max(0, n - tr)
  {
    var rd := Got(file, n, pos, grant(call));
    if rd < 0 then ReadOut(-1, buf, pos, call + 1)
    else if rd == 0 then ReadOut(tr, buf, pos, call + 1)
    else if tr + rd < n then
      ReadLoop(file, Fill(file, pos, rd, buf), n, Moved(pos, rd, moves), moves, grant, call + 1, tr + rd)
    else ReadOut(tr + rd, Fill(file, pos, rd, buf), Moved(pos, rd, moves), call + 1)
  }

  function WriteLoop(file: seq<byte>, data: seq<byte>, n: nat, pos: nat, moves: bool,
                     grant: Kernel, call: nat, tw: nat): (out: WriteOut)
    requires n <= |data|
    ensures out.ret == -1 || out.ret >= tw
    decreases Max(0, n - tw)
  {
    var wr := Amount(grant(call), n, n);
    if wr < 0 then WriteOut(-1, file, pos, call + 1)
    else
      var file' := WriteAt(file, pos, data[..wr]);
      var pos' := Moved(pos, wr, moves);
      if tw + wr < n then WriteLoop(file', data, n, pos', moves, grant, call + 1, tw + wr)
      else WriteOut(tw + wr, file', pos', call + 1)
  }

  /** An open file: contents, seek position, and the number of transfers made so far. */
  class Descriptor {
    var contents: seq<byte>
    var pos: nat
    var calls: nat
    const grant: Kernel

    constructor (contents: seq<byte>, grant: Kernel)
      ensures this.contents == contents && pos == 0 && calls == 0 && this.grant == grant
    {
      this.contents := contents;
      this.grant := grant;
      pos := 0;
      calls := 0;
    }

    /** pread(2): the bytes from off go to the start of dbuf. */
    method Pread(dbuf: array<byte>, n: nat, off: nat) returns (rd: int)
      requires n <= dbuf.Length
      modifies this`calls, dbuf
      ensures calls == old(calls) + 1
      ensures rd == Got(contents, n, off, grant(old(calls)))
      ensures dbuf[..] == Fill(contents, off, Max(0, rd), old(dbuf[..]))
    {
      rd := Got(contents, n, off, grant(calls));
      calls := calls + 1;
      if rd > 0 {
        forall i | 0 <= i < rd {
          dbuf[i] := contents[off + i];
        }
      }
    }

    /** read(2): a pread at the seek position, which moves past the bytes read. */
    method Read(dbuf: array<byte>, n: nat) returns (rd: int)
      requires n <= dbuf.Length
      modifies this`calls, this`pos, dbuf
      ensures calls == old(calls) + 1
      ensures rd == Got(contents, n, old(pos), grant(old(calls)))
      ensures pos == Moved(old(pos), Max(0, rd), true)
      ensures dbuf[..] == Fill(contents, old(pos), Max(0, rd), old(dbuf[..]))
    {
      rd := Pread(dbuf, n, pos);
      ghost var after := dbuf[..];
      pos := pos + Max(0, rd);
      assert dbuf[..] == after;
    }

    /** fd_read of simpcp2.c. */
    method FdRead(dbuf: array<byte>, n: nat) returns (tr: int)
      requires n <= dbuf.Length
      modifies this`calls, this`pos, dbuf
      ensures ReadOut(tr, dbuf[..], pos, calls)
           == ReadLoop(contents, old(dbuf[..]), n, old(pos), true, grant, old(calls), 0)
    {
      tr := 0;
      ghost var goal := ReadLoop(contents, dbuf[..], n, pos, true, grant, calls, 0);
      while true
        invariant 0 <= tr && (tr > 0 ==> tr < n)
        invariant ReadLoop(contents, dbuf[..], n, pos, true, grant, calls, tr) == goal
        decreases n - tr
      {
        var rd := Read(dbuf, n);
        if rd < 0 {
          return -1;
        }
        if rd == 0 {
          break;
        }
        tr := tr + rd;
        if tr >= n {
          break;
        }
      }
    }

    /** fd_read of mt_copy.c, on pread. */
    method FdPread(dbuf: array<byte>, n: nat, off: nat) returns (tr: int)
      requires n <= dbuf.Length
      modifies this`calls, dbuf
      ensures ReadOut(tr, dbuf[..], off, calls)
           == ReadLoop(contents, old(dbuf[..]), n, off, false, grant, old(calls), 0)
    {
      tr := 0;
      ghost var goal := ReadLoop(contents, dbuf[..], n, off, false, grant, calls, 0);
      while true
        invariant 0 <= tr && (tr > 0 ==> tr < n)
        invariant ReadLoop(contents, dbuf[..], n, off, false, grant, calls, tr) == goal
        decreases n - tr
      {
        var rd := Pread(dbuf, n, off);
        if rd < 0 {
          return -1;
        }
        if rd == 0 {
          break;
        }
        tr := tr + rd;
        if tr >= n {
          break;
        }
      }
    }

    /** fd_write of simpcp2.c. */
    method FdWrite(sbuf: array<byte>, n: nat) returns (tw: int)
      requires n <= sbuf.Length
      modifies this
      ensures WriteOut(tw, contents, pos, calls)
           == WriteLoop(old(contents), sbuf[..], n, old(pos), true, grant, old(calls), 0)
    {
      tw := 0;
      while true
        invariant 0 <= tw && (tw > 0 ==> tw < n)
        invariant WriteLoop(contents, sbuf[..], n, pos, true, grant, calls, tw)
               == WriteLoop(old(contents), sbuf[..], n, old(pos), true, grant, old(calls), 0)
        decreases n - tw
      {
        var wr := Amount(grant(calls), n, n);
        calls := calls + 1;
        if wr < 0 {
          return -1;
        }
        contents := WriteAt(contents, pos, sbuf[..][..wr]);
        pos := pos + wr;
        tw := tw + wr;
        if tw >= n {
          break;
        }
      }
    }

    /** fd_write of mt_copy.c, on pwrite. */
    method FdPwrite(sbuf: array<byte>, n: nat, off: nat) returns (tw: int)
      requires n <= sbuf.Length
      modifies this`contents, this`calls
      ensures WriteOut(tw, contents, off, calls)
           == WriteLoop(old(contents), sbuf[..], n, off, false, grant, old(calls), 0)
    {
      tw := 0;
      while true
        invariant 0 <= tw && (tw > 0 ==> tw < n)
        invariant WriteLoop(contents, sbuf[..], n, off, false, grant, calls, tw)
               == WriteLoop(old(contents), sbuf[..], n, off, false, grant, old(calls), 0)
        decreases n - tw
      {
        var wr := Amount(grant(calls), n, n);
        calls := calls + 1;
        if wr < 0 {
          return -1;
        }
        contents := WriteAt(contents, off, sbuf[..][..wr]);
        tw := tw + wr;
        if tw >= n {
          break;
        }
      }
    }
  }

  // When do the loops do their job?

  lemma OneTurn(file: seq<byte>, buf: seq<byte>, n: nat, pos: nat, moves: bool, grant: Kernel, call: nat, tr: nat)
    requires n <= |buf|
    ensures var rd := Got(file, n, pos, grant(call));
      rd > 0 && tr + rd < n ==>
        ReadLoop(file, Fill(file, pos, rd, buf), n, Moved(pos, rd, moves), moves, grant, call + 1, tr + rd)
          == ReadLoop(file, buf, n, pos, moves, grant, call, tr)
  {
  }

  /** After a short transfer the loop can return the right count only by leaving the last byte of the
      request unread. */
  lemma {:induction false} LastByteUntouched(file: seq<byte>, buf: seq<byte>, n: nat, pos: nat, moves: bool,
      grant: Kernel, call: nat, tr: nat, m: nat, out: ReadOut)
    requires 1 <= tr < n && 1 <= m <= n <= |buf|
    requires out == ReadLoop(file, buf, n, pos, moves, grant, call, tr)
    ensures |out.buf| == |buf| && (out.ret == m ==> out.buf[m - 1] == buf[m - 1])
    decreases n - tr
  {
    var rd := Got(file, n, pos, grant(call));
    if rd > 0 {
      var after := Fill(file, pos, rd, buf);
      assert rd < m ==> after[m - 1] == buf[m - 1];
      if tr + rd < n {
        OneTurn(file, buf, n, pos, moves, grant, call, tr);
        LastByteUntouched(file, after, n, Moved(pos, rd, moves), moves, grant, call + 1, tr + rd, m, out);
        assert out.ret == -1 || out.ret >= tr + rd;
      }
    }
  }

  ghost predicate ReadsExactly(file: seq<byte>, n: nat, pos: nat, moves: bool, grant: Kernel, call: nat) {
    forall buf: seq<byte> | |buf| == n ::
      var out := ReadLoop(file, buf, n, pos, moves, grant, call, 0);
      var want := ReadAt(file, pos, n);
      out.ret == |want| && out.buf[..|want|] == want
  }

  /** A buffer whose byte at m - 1 is not b. */
  function Decoy(n: nat, b: byte): seq<byte> {
    seq(n, _ => if b == 0 then 1 else 0)
  }

  /** fd_read on read(2) delivers the next n bytes (fewer only at end of file), whatever the buffer held
      before, if and only if its first call is not cut short and the call that meets the end of the
      file does not fail. */
  lemma ReadExact(file: seq<byte>, n: nat, pos: nat, grant: Kernel, call: nat)
    ensures var m := |ReadAt(file, pos, n)|;
      ReadsExactly(file, n, pos, true, grant, call) <==>
        grant(call) >= m && (0 < m < n ==> grant(call + 1) > 0)
  {
    var m := |ReadAt(file, pos, n)|;
    if grant(call) >= m && (0 < m < n ==> grant(call + 1) > 0) {
      forall buf: seq<byte> | |buf| == n
        ensures var out := ReadLoop(file, buf, n, pos, true, grant, call, 0);
          out.ret == m && out.buf[..m] == ReadAt(file, pos, n)
      {
        if 0 < m < n {
          var buf' := Fill(file, pos, m, buf);
          assert ReadLoop(file, buf', n, pos + m, true, grant, call + 1, m) == ReadOut(m, buf', pos + m, call + 2);
        }
      }
    } else if 0 < grant(call) < m {
      ShortReadFails(file, n, pos, true, grant, call);
    } else {
      var buf := Decoy(n, 0);
      assert ReadLoop(file, buf, n, pos, true, grant, call, 0).ret == -1;
    }
  }

  /** fd_read on pread(2), for a segment that lies inside the file: if and only if the first call is
      not cut short. */
  lemma PreadExact(file: seq<byte>, n: nat, off: nat, grant: Kernel, call: nat)
    requires off + n <= |file|
    ensures ReadsExactly(file, n, off, false, grant, call) <==> grant(call) >= n
  {
    if grant(call) >= n {
      forall buf: seq<byte> | |buf| == n
        ensures var out := ReadLoop(file, buf, n, off, false, grant, call, 0);
          out.ret == n && out.buf[..n] == ReadAt(file, off, n)
      {
        assert Fill(file, off, n, buf) == ReadAt(file, off, n);
      }
    } else if grant(call) > 0 {
      ShortReadFails(file, n, off, false, grant, call);
    } else {
      var buf := Decoy(n, 0);
      assert ReadLoop(file, buf, n, off, false, grant, call, 0).ret == -1;
    }
  }

  lemma ShortReadFails(file: seq<byte>, n: nat, pos: nat, moves: bool, grant: Kernel, call: nat)
    requires 0 < grant(call) < |ReadAt(file, pos, n)|
    ensures !ReadsExactly(file, n, pos, moves, grant, call)
  {
    var want, rd := ReadAt(file, pos, n), grant(call);
    var m := |want|;
    var buf := Decoy(n, want[m - 1]);
    var buf' := Fill(file, pos, rd, buf);
    var out := ReadLoop(file, buf, n, pos, moves, grant, call, 0);
    assert out == ReadLoop(file, buf', n, Moved(pos, rd, moves), moves, grant, call + 1, rd);
    LastByteUntouched(file, buf', n, Moved(pos, rd, moves), moves, grant, call + 1, rd, m, out);
    assert buf'[m - 1] == buf[m - 1] != want[m - 1];
    assert out.ret == m ==> out.buf[..m][m - 1] != want[m - 1];
  }

  ghost predicate WritesExactly(n: nat, pos: nat, moves: bool, grant: Kernel, call: nat) {
    forall file: seq<byte>, data: seq<byte> | |data| == n ::
      var out := WriteLoop(file, data, n, pos, moves, grant, call, 0);
      out.ret == n && out.file == WriteAt(file, pos, data)
  }

  /** fd_write on write(2) or pwrite(2) stores all n bytes in place, whatever they are, if and only if
      its first call is not cut short. */
  lemma WriteExact(n: nat, pos: nat, moves: bool, grant: Kernel, call: nat)
    ensures WritesExactly(n, pos, moves, grant, call) <==> grant(call) >= n
  {
    if grant(call) >= n {
      forall file: seq<byte>, data: seq<byte> | |data| == n
        ensures var out := WriteLoop(file, data, n, pos, moves, grant, call, 0);
          out.ret == n && out.file == WriteAt(file, pos, data)
      {
        assert data[..n] == data;
      }
    } else {
      var data: seq<byte> := if n == 0 then [] else Zeros(n - 1) + [1];
      var out := WriteLoop([], data, n, pos, moves, grant, call, 0);
      if n > 0 && grant(call) > 0 {
        var wr := grant(call);
        OnlyZeros(WriteAt([], pos, data[..wr]), data, n, Moved(pos, wr, moves), moves, grant, call + 1, wr);
        assert WriteAt([], pos, data)[pos + n - 1] == 1;
      }
      assert !(out.ret == n && out.file == WriteAt([], pos, data));
    }
  }

  /** After a short write the last byte of the request is never written in a run that returns n. */
  lemma {:induction false} OnlyZeros(file: seq<byte>, data: seq<byte>, n: nat, pos: nat, moves: bool,
      grant: Kernel, call: nat, tw: nat)
    requires 1 <= tw < n <= |data| && forall i :: 0 <= i < n - 1 ==> data[i] == 0
    requires forall i :: 0 <= i < |file| ==> file[i] == 0
    ensures var out := WriteLoop(file, data, n, pos, moves, grant, call, tw);
      out.ret == n ==> forall i :: 0 <= i < |out.file| ==> out.file[i] == 0
    decreases n - tw
  {
    var wr := Amount(grant(call), n, n);
    if wr > 0 && tw + wr < n {
      OnlyZeros(WriteAt(file, pos, data[..wr]), data, n, Moved(pos, wr, moves), moves,
        grant, call + 1, tw + wr);
    }
  }

  // Kernels without short transfers, the case the copy programs rely on

  /** Every call fails or transfers all it can, up to n bytes. */
  ghost predicate WholeOrError(grant: Kernel, n: nat) {
    forall k :: grant(k) < 0 || grant(k) >= n
  }

  /** No error and no transfer cut short below n bytes. */
  ghost predicate Whole(grant: Kernel, n: nat) {
    forall k :: grant(k) >= n
  }

  lemma ReadWhole(file: seq<byte>, buf: seq<byte>, n: nat, pos: nat, moves: bool, grant: Kernel, call: nat)
    requires 1 <= n <= |buf| && WholeOrError(grant, n) && (moves || pos + n <= |file|)
    ensures var out, want := ReadLoop(file, buf, n, pos, moves, grant, call, 0), ReadAt(file, pos, n);
      && (out.ret == -1 || (out.ret == |want| && out.buf[..|want|] == want && (moves ==> out.pos == pos + |want|)))
      && (Whole(grant, n) ==> out.ret != -1)
  {
    var m := |ReadAt(file, pos, n)|;
    if grant(call) >= n && m > 0 {
      var buf' := Fill(file, pos, m, buf);
      assert buf'[..m] == ReadAt(file, pos, n);
      if m < n {
        var last := ReadLoop(file, buf', n, pos + m, true, grant, call + 1, m);
        assert last.ret == -1 || last == ReadOut(m, buf', pos + m, call + 2);
      }
    }
  }

  lemma WriteWhole(file: seq<byte>, data: seq<byte>, n: nat, pos: nat, moves: bool, grant: Kernel, call: nat)
    requires n <= |data| && (grant(call) < 0 || grant(call) >= n)
    ensures var out := WriteLoop(file, data, n, pos, moves, grant, call, 0);
      if grant(call) < 0 then out.ret == -1 && out.file == file && out.pos == pos
      else out.ret == n && out.file == WriteAt(file, pos, data[..n]) && (moves ==> out.pos == pos + n)
  {
  }

  /** The loop returns -1 only when its last call failed. */
  lemma {:induction false} ReadFails(file: seq<byte>, buf: seq<byte>, n: nat, pos: nat, moves: bool,
      grant: Kernel, call: nat, tr: nat)
    requires n <= |buf|
    ensures var out := ReadLoop(file, buf, n, pos, moves, grant, call, tr);
      out.calls > call && (out.ret == -1 ==> grant(out.calls - 1) < 0)
    decreases Max(0, n - tr)
  {
    var rd := Got(file, n, pos, grant(call));
    if rd > 0 && tr + rd < n {
      ReadFails(file, Fill(file, pos, rd, buf), n, Moved(pos, rd, moves), moves, grant, call + 1, tr + rd);
    }
  }

  lemma {:induction false} WriteFails(file: seq<byte>, data: seq<byte>, n: nat, pos: nat, moves: bool,
      grant: Kernel, call: nat, tw: nat)
    requires n <= |data|
    ensures var out := WriteLoop(file, data, n, pos, moves, grant, call, tw);
      out.calls > call && (out.ret == -1 ==> grant(out.calls - 1) < 0)
    decreases Max(0, n - tw)
  {
    var wr := Amount(grant(call), n, n);
    if wr >= 0 && tw + wr < n {
      WriteFails(WriteAt(file, pos, data[..wr]), data, n, Moved(pos, wr, moves), moves, grant, call + 1, tw + wr);
    }
  }
}
