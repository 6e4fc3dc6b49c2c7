/** File contents as byte sequences, and what one complete system call does to them. */
module Files {

  type byte = b: int | 0 <= b < 256

  function Min(a: int, b: int): int { if a < b then a else b }

  function Max(a: int, b: int): int { if a < b then b else a }

  function Zeros(n: nat): seq<byte> { seq(n, _ => 0) }

  /** A complete write of data at off.  Writing past the end leaves a hole that reads as zeros;
      writing nothing does not extend the file. */
  function WriteAt(file: seq<byte>, off: nat, data: seq<byte>): (r: seq<byte>)
    ensures |r| == if data == [] then |file| else Max(|file|, off + |data|)
    ensures forall i :: 0 <= i < |r| ==>
      r[i] == if off <= i < off + |data| then data[i - off] else if i < |file| then file[i] else 0
  {
    seq(if data == [] then |file| else Max(|file|, off + |data|), i =>
      if off <= i < off + |data| then data[i - off] else if 0 <= i < |file| then file[i] else 0)
  }

  /** A complete read: short only at the end of the file. */
  function ReadAt(file: seq<byte>, off: nat, n: nat): (r: seq<byte>)
    ensures |r| == Min(n, Max(0, |file| - off))
    ensures forall i :: 0 <= i < |r| ==> r[i] == file[off + i]
  {
    if off >= |file| then [] else file[off..Min(off + n, |file|)]
  }

  /** new written over the start of a file that is not truncated. */
  function Overlay<T>(new_: seq<T>, old_: seq<T>): (r: seq<T>)
    ensures |r| == Max(|new_|, |old_|)
    ensures forall i :: 0 <= i < |r| ==> r[i] == if i < |new_| then new_[i] else old_[i]
  {
    seq(Max(|new_|, |old_|), i requires 0 <= i < Max(|new_|, |old_|) => if i < |new_| then new_[i] else old_[i])
  }
}
