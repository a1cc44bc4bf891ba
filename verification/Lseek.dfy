/** SEEK_DATA and SEEK_HOLE over the union of chunk coverage and dirty spans. */
module Lseek {
  import opened Errnos
  import opened FileBytes
  import opened Numbers
  import opened ByteRanges
  import Overlay

  datatype Whence = SeekData | SeekHole | Other

  // ----- the extents

  /** A span cut to `[0, limit)`; nothing when nothing is left. */
  function Clamped(r: ByteRange, limit: int): seq<ByteRange> {
    var s, e := Max(r.start, 0), Min(r.end, limit);
    if s < e then [ByteRange(s, e)] else []
  }

  /** All spans cut to `[0, limit)`. */
  method ClampAll(spans: seq<ByteRange>, limit: int) returns (out: seq<ByteRange>)
    ensures NonEmpty(out) && Within(out, 0, limit)
    ensures forall x :: Covers(out, x) <==> Covers(spans, x) && 0 <= x < limit
  {
    out := [];
    for i := 0 to |spans|
      invariant NonEmpty(out) && Within(out, 0, limit)
      invariant forall x :: Covers(out, x) <==> Covers(spans[..i], x) && 0 <= x < limit
    {
      ghost var before := out;
      out := out + Clamped(spans[i], limit);
      forall x ensures Covers(out, x) <==> Covers(spans[..i + 1], x) && 0 <= x < limit {
        assert spans[..i + 1] == spans[..i] + [spans[i]];
        CoversConcat(before, Clamped(spans[i], limit), x);
        CoversConcat(spans[..i], [spans[i]], x);
        ClampedCovers(spans[i], limit, x);
      }
    }
    assert spans[..|spans|] == spans;
  }

  lemma ClampedCovers(r: ByteRange, limit: int, x: int)
    ensures Covers(Clamped(r, limit), x) <==> Covers([r], x) && 0 <= x < limit
  {
    CoversSingle(r, x);
    if Clamped(r, limit) != [] {
      CoversSingle(Clamped(r, limit)[0], x);
    }
  }

  method ChunkExtents(chunks: seq<ByteRange>, pinSize: int, size: int) returns (extents: seq<ByteRange>)
    ensures Canonical(extents) && Within(extents, 0, size)
    ensures forall x :: Covers(extents, x) <==> Covers(chunks, x) && 0 <= x < size && x < pinSize
  {
    if size <= 0 {
      return [];
    }
    var limit := size;
    if pinSize < limit {
      limit := pinSize;
    }
    var clamped := ClampAll(chunks, limit);
    extents := MergeByteRanges(clamped);
    SameWithin(clamped, extents, 0, size);
  }

  lemma SameWithin(a: seq<ByteRange>, b: seq<ByteRange>, lo: int, hi: int)
    requires Canonical(b) && SameOffsets(b, a) && Within(a, lo, hi)
    ensures Within(b, lo, hi)
  {
    forall k | 0 <= k < |b| ensures lo <= b[k].start && b[k].end <= hi {
      assert InRange(b[k], b[k].start) && InRange(b[k], b[k].end - 1);
      assert Covers(b, b[k].start) && Covers(b, b[k].end - 1);
      assert Covers(a, b[k].start) && Covers(a, b[k].end - 1);
    }
  }

  /** What counts as data: chunk coverage inside the pinned file, and every dirty span; the whole
      file when the temp is authoritative. */
  method LseekExtents(chunks: seq<ByteRange>, pinSize: int, dirty: seq<ByteRange>, authoritative: bool, size: int)
      returns (extents: seq<ByteRange>)
    ensures Canonical(extents) && Within(extents, 0, size)
    ensures forall x :: Covers(extents, x) <==>
      0 <= x < size && (authoritative || (x < pinSize && Covers(chunks, x)) || Covers(dirty, x))
  {
    if size <= 0 {
      return [];
    }
    if authoritative {
      extents := [ByteRange(0, size)];
      forall x ensures Covers(extents, x) <==> 0 <= x < size {
        CoversSingle(extents[0], x);
      }
      return;
    }
    var fromChunks := ChunkExtents(chunks, pinSize, size);
    var fromDirty := ClampAll(dirty, size);
    var all := fromChunks + fromDirty;
    forall x ensures Covers(all, x) <==> Covers(fromChunks, x) || Covers(fromDirty, x) {
      CoversConcat(fromChunks, fromDirty, x);
    }
    extents := MergeByteRanges(all);
    SameWithin(all, extents, 0, size);
  }

  // ----- the seek

  /** The least data offset at or after `start`, none at the end of the data. */
  method SeekToData(extents: seq<ByteRange>, size: int, start: int) returns (errno: Errno, at: int)
    requires Canonical(extents) && Within(extents, 0, size) && start >= 0
    ensures errno == OK <==> exists x :: start <= x && Covers(extents, x)
    ensures errno == OK ==> start <= at && Covers(extents, at) && forall x :: start <= x < at ==> !Covers(extents, x)
    ensures errno != OK ==> errno == ENXIO
  {
    if start >= size {
      assert forall x :: Covers(extents, x) ==> x < size;
      return ENXIO, 0;
    }
    for i := 0 to |extents|
      invariant forall k :: 0 <= k < i ==> extents[k].end <= start
    {
      var r := extents[i];
      if start >= r.end {
        continue;
      }
      if start < r.start {
        assert InRange(r, r.start);
        assert Covers(extents, r.start);
        return OK, r.start;
      }
      assert InRange(r, start);
      assert Covers(extents, start);
      return OK, start;
    }
    return ENXIO, 0;
  }

  /** The least offset at or after `start` that is no data; the end of the file is a hole. */
  method SeekToHole(extents: seq<ByteRange>, size: int, start: int) returns (errno: Errno, at: int)
    requires Canonical(extents) && Within(extents, 0, size) && start >= 0
    ensures errno == OK <==> start <= size
    ensures errno == OK ==>
      start <= at <= size && !Covers(extents, at) && forall x :: start <= x < at ==> Covers(extents, x)
    ensures errno != OK ==> errno == ENXIO
  {
    assert forall x :: Covers(extents, x) ==> x < size;
    if start > size {
      return ENXIO, 0;
    }
    if start == size {
      return OK, size;
    }
    var pos := start;
    for i := 0 to |extents|
      invariant start <= pos <= size
      invariant forall k :: 0 <= k < i ==> extents[k].end <= pos
      invariant forall x :: start <= x < pos ==> Covers(extents, x)
    {
      var r := extents[i];
      if pos < r.start {
        assert !Covers(extents, pos);
        return OK, pos;
      }
      if pos < r.end {
        assert forall x :: pos <= x < r.end ==> InRange(r, x);
        pos := r.end;
      }
    }
    if pos > size {
      pos := size;
    }
    return OK, pos;
  }

  /** The call itself. A negative size says that there is neither a pin nor an overlay to seek in. */
  method Seek(extents: seq<ByteRange>, size: int, off: int, whence: Whence) returns (errno: Errno, at: int)
    requires size >= 0 ==> Canonical(extents) && Within(extents, 0, size)
    requires off >= 0
    ensures off >= 0x8000_0000_0000_0000 ==> errno == EINVAL
    ensures off < 0x8000_0000_0000_0000 ==> (errno == EIO <==> size < 0)
    ensures off < 0x8000_0000_0000_0000 && size >= 0 ==> (errno == EINVAL <==> whence == Other)
    ensures off < 0x8000_0000_0000_0000 && size >= 0 && whence == SeekData && errno == OK ==>
      off <= at && Covers(extents, at) && forall x :: off <= x < at ==> !Covers(extents, x)
    ensures off < 0x8000_0000_0000_0000 && size >= 0 && whence == SeekData && errno != OK ==>
      errno == ENXIO && forall x :: off <= x ==> !Covers(extents, x)
    ensures off < 0x8000_0000_0000_0000 && size >= 0 && whence == SeekHole ==> (errno == OK <==> off <= size) && (errno != OK ==> errno == ENXIO)
    ensures off < 0x8000_0000_0000_0000 && size >= 0 && whence == SeekHole && errno == OK ==>
      off <= at <= size && !Covers(extents, at) && forall x :: off <= x < at ==> Covers(extents, x)
  {
    if off >= 0x8000_0000_0000_0000 {
      return EINVAL, 0;
    }
    if size < 0 {
      return EIO, 0;
    }
    match whence
    case SeekData => errno, at := SeekToData(extents, size, off);
    case SeekHole => errno, at := SeekToHole(extents, size, off);
    case Other => return EINVAL, 0;
  }

  /** Seeks agree with reads: a byte below the size that is no data is read as zero, whenever the
      base holds nothing but zeros between its chunks. */
  lemma HolesReadZero(temp: seq<Byte>, base: seq<Byte>, dirty: seq<ByteRange>, chunks: seq<ByteRange>, size: int, x: int)
    requires forall y :: 0 <= y < |base| && !Covers(chunks, y) ==> base[y] == 0
    requires 0 <= x < size && !(x < |base| && Covers(chunks, x)) && !Covers(dirty, x)
    ensures Overlay.Visible(temp, base, |base|, dirty, x) == 0
  {
  }
}
