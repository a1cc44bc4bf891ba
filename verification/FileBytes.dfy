/** File contents as plain byte sequences, and the few operations on them that the
    POSIX calls promise: a positional write, a resize, and a clamped read. */
module FileBytes {
  import opened Numbers

  newtype Byte = x: int | 0 <= x < 256

  function Zeros(n: nat): (z: seq<Byte>)
    ensures |z| == n && forall i :: 0 <= i < n ==> z[i] == 0
  {
    seq(n, i => 0)
  }

  /** The byte at offset `x`; a hole, or anything past the end, reads as zero. */
  function At(s: seq<Byte>, x: int): Byte {
    if 0 <= x < |s| then s[x] else 0
  }

  /** ftruncate: cut, or extend with zeros. */
  function Resize(s: seq<Byte>, n: nat): (r: seq<Byte>)
    ensures |r| == n && forall x :: 0 <= x < n ==> r[x] == At(s, x)
  {
    if n <= |s| then s[..n] else s + Zeros(n - |s|)
  }

  /** pwrite: bytes `[off, off + |data|)` become `data`; a gap before `off` becomes zeros. */
  function WriteAt(s: seq<Byte>, off: nat, data: seq<Byte>): (r: seq<Byte>)
    ensures |r| == Max(|s|, off + |data|)
    ensures forall x :: 0 <= x < |r| ==>
      r[x] == if off <= x < off + |data| then data[x - off] else At(s, x)
  {
    var t := if |s| < off then Resize(s, off) else s;
    t[..off] + data + (if off + |data| <= |t| then t[off + |data|..] else [])
  }

  /** pread: at most `length` bytes from `off`, clamped to the end of the file. */
  function ReadAt(s: seq<Byte>, off: nat, length: nat): (r: seq<Byte>)
    ensures |r| == if off >= |s| then 0 else Min(length, |s| - off)
    ensures forall i :: 0 <= i < |r| ==> r[i] == s[off + i]
  {
    if off >= |s| then [] else s[off..off + Min(length, |s| - off)]
  }

  /** Copies `src` into a buffer at `at`. */
  method Fill(dest: array<Byte>, at: nat, src: seq<Byte>)
    requires at + |src| <= dest.Length
    modifies dest
    ensures forall i :: 0 <= i < dest.Length ==>
      dest[i] == if at <= i < at + |src| then src[i - at] else old(dest[i])
  {
    forall i | 0 <= i < |src| {
      dest[at + i] := src[i];
    }
  }
}
