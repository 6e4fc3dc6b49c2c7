/** A_fileio/simpcp2.c: copy a file block by block through one buffer. */
module BlockCopy {
  import opened Arith
  import opened Files
  import opened Transfers

  /** Bytes copied after k blocks of n. */
  function Copied(k: nat, n: nat, size: nat): nat {
    Min(k * n, size)
  }

  lemma AppendBlock(src: seq<byte>, old_: seq<byte>, k: nat, m: nat)
    requires 1 <= m && k + m <= |src|
    ensures WriteAt(Overlay(src[..k], old_), k, src[k..k + m]) == Overlay(src[..k + m], old_)
  {
  }

  /** One turn of the loop that reads something takes the destination from k blocks to k + 1. */
  lemma NextBlock(src: seq<byte>, old_: seq<byte>, k: nat, n: nat, done: nat, want: seq<byte>)
    requires n >= 1 && done == Copied(k, n, |src|) && want == ReadAt(src, done, n) && want != []
    ensures k * n < |src| && done + |want| == Copied(k + 1, n, |src|)
    ensures WriteAt(Overlay(src[..done], old_), done, want) == Overlay(src[..done + |want|], old_)
  {
    MulPred(k, n);
    assert src[done..done + |want|] == want;
    AppendBlock(src, old_, done, |want|);
  }

  lemma BlocksNeeded(loops: nat, n: nat, size: nat)
    requires n >= 1 && Copied(loops, n, size) == size
    requires loops > 0 ==> (loops - 1) * n < size
    ensures loops == size / n + if size % n != 0 then 1 else 0
  {
    var q, r := size / n, size % n;
    assert size == q * n + r;
    MulPred(loops, n);
    MulPred(q, n);
    MulPred(q + 1, n);
    MulOrder(loops, q - 1, n);
    MulOrder(loops, q, n);
    MulOrder(q + 1, loops - 1, n);
    MulOrder(q, loops - 1, n);
  }

  /** fd_read when the kernel does not cut transfers short. */
  method ReadBlock(fd: Descriptor, buf: array<byte>, n: nat) returns (nr: int)
    requires 1 <= n <= buf.Length && WholeOrError(fd.grant, n)
    modifies fd`pos, fd`calls, buf
    ensures var want := ReadAt(fd.contents, old(fd.pos), n);
      nr == -1 || (nr == |want| && buf[..nr] == want && fd.pos == old(fd.pos) + nr)
    ensures Whole(fd.grant, n) ==> nr != -1
    ensures fd.calls > old(fd.calls) && (nr == -1 ==> fd.grant(fd.calls - 1) < 0)
  {
    ReadWhole(fd.contents, buf[..], n, fd.pos, true, fd.grant, fd.calls);
    ReadFails(fd.contents, buf[..], n, fd.pos, true, fd.grant, fd.calls, 0);
    nr := fd.FdRead(buf, n);
    assert buf[..][..Max(0, nr)] == buf[..Max(0, nr)];
  }

  /** fd_write when the kernel does not cut transfers short. */
  method WriteBlock(fd: Descriptor, buf: array<byte>, nr: nat) returns (nw: int)
    requires nr <= buf.Length && (fd.grant(fd.calls) < 0 || fd.grant(fd.calls) >= nr)
    modifies fd
    ensures if old(fd.grant(fd.calls)) < 0 then nw == -1 && fd.contents == old(fd.contents) && fd.pos == old(fd.pos)
      else nw == nr && fd.contents == WriteAt(old(fd.contents), old(fd.pos), buf[..nr]) && fd.pos == old(fd.pos) + nr
    ensures fd.calls > old(fd.calls) && (nw == -1 ==> fd.grant(fd.calls - 1) < 0)
  {
    WriteWhole(fd.contents, buf[..], nr, fd.pos, true, fd.grant, fd.calls);
    WriteFails(fd.contents, buf[..], nr, fd.pos, true, fd.grant, fd.calls, 0);
    nw := fd.FdWrite(buf, nr);
    assert buf[..][..nr] == buf[..nr];
  }

  /** docopy; statFails and mallocFails tell whether those two calls fail.  The kernel may fail any call but
      does not cut transfers short.  On success the source lies over the old destination, whose tail beyond it
      stays (the file is not truncated), after one writing iteration per block; on a failure whole blocks have
      been copied. */
  method DoCopy(fd_src: Descriptor, fd_dest: Descriptor, n: nat, statFails: bool, mallocFails: bool)
    returns (r: int, blocks: nat)
    requires fd_src != fd_dest && n >= 1 && fd_src.pos == 0 && fd_dest.pos == 0
    requires WholeOrError(fd_src.grant, n) && WholeOrError(fd_dest.grant, n)
    modifies fd_src`pos, fd_src`calls, fd_dest
    ensures r == 0 || r == -1 || r == -2 || r == -3 || r == -4
    ensures (r == -1 <==> statFails) && (r == -2 <==> !statFails && mallocFails)
    ensures r == -1 || r == -2 ==> blocks == 0
    ensures r == 0 ==>
      && fd_dest.contents == Overlay(fd_src.contents, old(fd_dest.contents))
      && blocks == |fd_src.contents| / n + if |fd_src.contents| % n != 0 then 1 else 0
    ensures r != 0 ==>
      fd_dest.contents == Overlay(fd_src.contents[..Copied(blocks, n, |fd_src.contents|)], old(fd_dest.contents))
    ensures (Whole(fd_src.grant, n) ==> r != -3) && (Whole(fd_dest.grant, n) ==> r != -4)
    ensures r == -3 ==> fd_src.calls > old(fd_src.calls) && fd_src.grant(fd_src.calls - 1) < 0
    ensures r == -4 ==> fd_dest.calls > old(fd_dest.calls) && fd_dest.grant(fd_dest.calls - 1) < 0
  {
    ghost var src, before := fd_src.contents, fd_dest.contents;
    assert Overlay(src[..0], before) == before;
    if statFails {
      return -1, 0;
    }
    if mallocFails {
      return -2, 0;
    }
    var buf := new byte[n];
    var loop := 1;
    while true
      invariant loop >= 1 && fd_src.pos == fd_dest.pos == Copied(loop - 1, n, |src|)
      invariant loop > 1 ==> (loop - 2) * n < |src|
      invariant fd_src.calls >= old(fd_src.calls) && fd_dest.calls >= old(fd_dest.calls)
      invariant fd_dest.contents == Overlay(src[..fd_dest.pos], before)
      decreases |src| - fd_src.pos
    {
      ghost var done := fd_src.pos;
      var nr := ReadBlock(fd_src, buf, n);
      if nr < 0 {
        return -3, loop - 1;
      } else if nr == 0 {
        break;
      }
      var nw := WriteBlock(fd_dest, buf, nr);
      if nw < 0 {
        return -4, loop - 1;
      }
      NextBlock(src, before, loop - 1, n, done, ReadAt(src, done, n));
      loop := loop + 1;
    }
    assert src[..|src|] == src;
    BlocksNeeded(loop - 1, n, |src|);
    return 0, loop - 1;
  }
}
