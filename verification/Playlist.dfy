/** A stored file as its chunk descriptors lay it out, and the positional read over them. All
    offsets are 64-bit: the arithmetic is checked not to overflow. */
module Playlist {
  import opened Errnos
  import opened FileBytes
  import opened Numbers

  newtype Int64 = x: int | -0x8000_0000_0000_0000 <= x < 0x8000_0000_0000_0000

  datatype Chunk = Chunk(offset: Int64, size: Int64, asset: int, assetOffset: Int64)

  /** What the release assets hold. */
  type Assets = (int, int) -> Byte

  function EndOf(c: Chunk): int {
    c.offset as int + c.size as int
  }

  /** Descriptors as the store keeps them: in order, apart, and with ends that fit. */
  predicate LaidOut(chunks: seq<Chunk>) {
    && (forall i :: 0 <= i < |chunks| ==>
      chunks[i].offset >= 0 && chunks[i].size >= 0 && chunks[i].assetOffset >= 0
      && EndOf(chunks[i]) < 0x8000_0000_0000_0000
      && chunks[i].assetOffset as int + chunks[i].size as int < 0x8000_0000_0000_0000)
    && (forall i, j :: 0 <= i < j < |chunks| ==> EndOf(chunks[i]) <= chunks[j].offset as int)
  }

  predicate Inside(c: Chunk, x: int) {
    c.offset as int <= x < EndOf(c)
  }

  /** The byte a chunk contributes at file offset `x`. */
  function ByteIn(assets: Assets, c: Chunk, x: int): Byte {
    assets(c.asset, c.assetOffset as int + (x - c.offset as int))
  }

  /** The file's byte at `x`: from its chunk, or zero in a gap. */
  function ByteAt(assets: Assets, chunks: seq<Chunk>, x: int): Byte {
    if chunks == [] then 0
    else if Inside(chunks[0], x) then ByteIn(assets, chunks[0], x)
    else ByteAt(assets, chunks[1..], x)
  }

  /** The content a chunk list of a given size stands for. */
  function Content(assets: Assets, chunks: seq<Chunk>, size: nat): (s: seq<Byte>)
    ensures |s| == size && forall x :: 0 <= x < size ==> s[x] == ByteAt(assets, chunks, x)
  {
    seq(size, x requires 0 <= x < size => ByteAt(assets, chunks, x))
  }

  lemma {:induction false} ByteAtChunk(assets: Assets, chunks: seq<Chunk>, k: nat, x: int)
    requires LaidOut(chunks) && k < |chunks| && Inside(chunks[k], x)
    ensures ByteAt(assets, chunks, x) == ByteIn(assets, chunks[k], x)
    decreases |chunks|
  {
    if k > 0 {
      assert EndOf(chunks[0]) <= chunks[k].offset as int;
      assert chunks[1..][k - 1] == chunks[k];
      ByteAtChunk(assets, chunks[1..], k - 1, x);
    }
  }

  lemma {:induction false} ByteAtGap(assets: Assets, chunks: seq<Chunk>, x: int)
    requires forall k :: 0 <= k < |chunks| ==> !Inside(chunks[k], x)
    ensures ByteAt(assets, chunks, x) == 0
    decreases |chunks|
  {
    if chunks != [] {
      ByteAtGap(assets, chunks[1..], x);
    }
  }

  /** The first chunk that ends after `offset`. */
  method SearchChunks(chunks: seq<Chunk>, offset: Int64) returns (i: nat)
    requires LaidOut(chunks)
    ensures i <= |chunks|
    ensures forall k :: 0 <= k < i ==> EndOf(chunks[k]) <= offset as int
    ensures forall k :: i <= k < |chunks| ==> EndOf(chunks[k]) > offset as int
  {
    i := 0;
    var hi := |chunks|;
    while i < hi
      invariant 0 <= i <= hi <= |chunks|
      invariant forall k :: 0 <= k < i ==> EndOf(chunks[k]) <= offset as int
      invariant forall k :: hi <= k < |chunks| ==> EndOf(chunks[k]) > offset as int
    {
      var mid := (i + hi) / 2;
      if chunks[mid].offset + chunks[mid].size > offset {
        forall k | mid < k < |chunks| ensures EndOf(chunks[k]) > offset as int {
          assert EndOf(chunks[mid]) <= chunks[k].offset as int;
        }
        hi := mid;
      } else {
        forall k | 0 <= k < mid ensures EndOf(chunks[k]) <= offset as int {
          assert EndOf(chunks[k]) <= chunks[mid].offset as int;
        }
        i := mid + 1;
      }
    }
  }

  /** Fetches one segment of an asset into the buffer, or fails. */
  method FillAssetRange(assets: Assets, segment: Chunk, dest: array<Byte>, at: nat, reliable: bool) returns (ok: bool)
    requires segment.size >= 0 && segment.assetOffset >= 0 && at + segment.size as nat <= dest.Length
    modifies dest
    ensures ok ==> forall i :: 0 <= i < dest.Length ==>
      dest[i] == if at <= i < at + segment.size as nat then assets(segment.asset, segment.assetOffset as int + (i - at)) else old(dest[i])
    ensures reliable ==> ok
  {
    ok := *;
    ok := ok || reliable;
    if ok {
      forall i | at <= i < at + segment.size as nat {
        dest[i] := assets(segment.asset, segment.assetOffset as int + (i - at));
      }
    }
  }

  /** The bytes before `upto` are in place, and nothing after it has been written. */
  ghost predicate Assembled(assets: Assets, chunks: seq<Chunk>, k: nat, offset: Int64, end: Int64, dest: array<Byte>)
    requires k <= |chunks|
    reads dest
  {
    && dest.Length == end as int - offset as int
    && forall i :: 0 <= i < dest.Length ==> dest[i] == ByteAt(assets, chunks[..k], offset as int + i)
  }

  /** pread: the clamped slice of the file its chunks describe, whatever offset and length are asked
      for. */
  method ReadFileAt(assets: Assets, chunks: seq<Chunk>, size: Int64, offset: Int64, length: Int64, reliable: bool)
      returns (errno: Errno, result: array<Byte>)
    requires LaidOut(chunks) && size >= 0
    ensures fresh(result)
    ensures errno == EINVAL <==> offset < 0 || length < 0
    ensures errno == OK ==> result[..] == ReadAt(Content(assets, chunks, size as nat), offset as nat, length as nat)
    // Each chunk contributes its own stretch of its asset, from its own offset in it; gaps are zero.
    ensures errno == OK ==> forall k, i | 0 <= k < |chunks| && 0 <= i < result.Length ::
      chunks[k].offset as int <= offset as int + i < chunks[k].offset as int + chunks[k].size as int ==>
      result[i] == assets(chunks[k].asset, chunks[k].assetOffset as int + (offset as int + i - chunks[k].offset as int))
    ensures errno == OK ==> forall i | 0 <= i < result.Length ::
      (forall k | 0 <= k < |chunks| ::
        !(chunks[k].offset as int <= offset as int + i < chunks[k].offset as int + chunks[k].size as int)) ==> result[i] == 0
    ensures reliable && offset >= 0 && length >= 0 ==> errno == OK
  {
    if offset < 0 || length < 0 {
      result := new Byte[0];
      return EINVAL, result;
    }
    if offset >= size || length == 0 {
      result := new Byte[0];
      return OK, result;
    }
    var clamped := length;
    if clamped > size - offset {
      clamped := size - offset;
    }
    var end := offset + clamped;
    result := new Byte[(end - offset) as int](_ => 0);
    var first := SearchChunks(chunks, offset);
    Skipped(assets, chunks, first, offset, end, result);
    var k := first;
    while k < |chunks| && chunks[k].offset < end
      invariant first <= k <= |chunks| && Assembled(assets, chunks, k, offset, end, result)
      decreases |chunks| - k
    {
      var ok := FillSegment(assets, chunks, k, offset, end, result, reliable);
      if !ok {
        return EIO, result;
      }
      k := k + 1;
    }
    RestBeyond(assets, chunks, k, offset, end, result);
    assert result[..] == ReadAt(Content(assets, chunks, size as nat), offset as nat, length as nat);
    ReadShows(assets, chunks, offset, result);
    errno := OK;
  }

  lemma ReadShows(assets: Assets, chunks: seq<Chunk>, offset: Int64, dest: array<Byte>)
    requires LaidOut(chunks) && forall i :: 0 <= i < dest.Length ==> dest[i] == ByteAt(assets, chunks, offset as int + i)
    ensures forall k, i | 0 <= k < |chunks| && 0 <= i < dest.Length ::
      chunks[k].offset as int <= offset as int + i < chunks[k].offset as int + chunks[k].size as int ==>
      dest[i] == assets(chunks[k].asset, chunks[k].assetOffset as int + (offset as int + i - chunks[k].offset as int))
    ensures forall i | 0 <= i < dest.Length ::
      (forall k | 0 <= k < |chunks| ::
        !(chunks[k].offset as int <= offset as int + i < chunks[k].offset as int + chunks[k].size as int)) ==> dest[i] == 0
  {
    forall k, i | 0 <= k < |chunks| && 0 <= i < dest.Length && Inside(chunks[k], offset as int + i)
      ensures dest[i] == ByteIn(assets, chunks[k], offset as int + i)
    {
      ByteAtChunk(assets, chunks, k, offset as int + i);
    }
    forall i | 0 <= i < dest.Length && (forall k :: 0 <= k < |chunks| ==> !Inside(chunks[k], offset as int + i)) ensures dest[i] == 0 {
      ByteAtGap(assets, chunks, offset as int + i);
    }
  }

  lemma Skipped(assets: Assets, chunks: seq<Chunk>, k: nat, offset: Int64, end: Int64, dest: array<Byte>)
    requires k <= |chunks| && offset < end && dest.Length == end as int - offset as int && forall i :: 0 <= i < dest.Length ==> dest[i] == 0
    requires forall j :: 0 <= j < k ==> EndOf(chunks[j]) <= offset as int
    ensures Assembled(assets, chunks, k, offset, end, dest)
  {
    forall i | 0 <= i < dest.Length ensures dest[i] == ByteAt(assets, chunks[..k], offset as int + i) {
      ByteAtGap(assets, chunks[..k], offset as int + i);
    }
  }

  /** What lies beyond the read does not show in it. */
  lemma RestBeyond(assets: Assets, chunks: seq<Chunk>, k: nat, offset: Int64, end: Int64, dest: array<Byte>)
    requires LaidOut(chunks) && k <= |chunks| && Assembled(assets, chunks, k, offset, end, dest)
    requires k < |chunks| ==> chunks[k].offset >= end
    ensures forall i :: 0 <= i < dest.Length ==> dest[i] == ByteAt(assets, chunks, offset as int + i)
  {
    forall i | 0 <= i < dest.Length ensures dest[i] == ByteAt(assets, chunks, offset as int + i) {
      SamePrefix(assets, chunks, k, offset as int + i);
    }
  }

  lemma SamePrefix(assets: Assets, chunks: seq<Chunk>, k: nat, x: int)
    requires LaidOut(chunks) && k <= |chunks| && (k < |chunks| ==> x < chunks[k].offset as int)
    ensures ByteAt(assets, chunks, x) == ByteAt(assets, chunks[..k], x)
  {
    if j :| 0 <= j < k && Inside(chunks[j], x) {
      ByteAtChunk(assets, chunks, j, x);
      assert chunks[..k][j] == chunks[j];
      ByteAtChunk(assets, chunks[..k], j, x);
    } else {
      forall j | 0 <= j < |chunks| ensures !Inside(chunks[j], x) {
        if j > k {
          assert EndOf(chunks[k]) <= chunks[j].offset as int;
        }
      }
      ByteAtGap(assets, chunks, x);
      ByteAtGap(assets, chunks[..k], x);
    }
  }

  /** One chunk's share of the read. */
  method FillSegment(assets: Assets, chunks: seq<Chunk>, k: nat, offset: Int64, end: Int64, dest: array<Byte>, reliable: bool) returns (ok: bool)
    requires LaidOut(chunks) && k < |chunks| && 0 <= offset < end && chunks[k].offset < end
    requires Assembled(assets, chunks, k, offset, end, dest)
    modifies dest
    ensures ok ==> Assembled(assets, chunks, k + 1, offset, end, dest)
    ensures reliable ==> ok
  {
    var chunk := chunks[k];
    var chunkEnd := chunk.offset + chunk.size;
    if chunkEnd <= offset || chunk.size == 0 {
      forall i | 0 <= i < dest.Length ensures dest[i] == ByteAt(assets, chunks[..k + 1], offset as int + i) {
        OneMoreChunk(assets, chunks, k, offset as int + i);
      }
      return true;
    }
    var start := if offset > chunk.offset then offset else chunk.offset;
    var stop := if end < chunkEnd then end else chunkEnd;
    var segment := chunk.(offset := start, assetOffset := chunk.assetOffset + (start - chunk.offset), size := stop - start);
    ok := FillAssetRange(assets, segment, dest, (start - offset) as nat, reliable);
    if ok {
      forall i | 0 <= i < dest.Length ensures dest[i] == ByteAt(assets, chunks[..k + 1], offset as int + i) {
        OneMoreChunk(assets, chunks, k, offset as int + i);
      }
    }
  }

  lemma OneMoreChunk(assets: Assets, chunks: seq<Chunk>, k: nat, x: int)
    requires LaidOut(chunks) && k < |chunks|
    ensures ByteAt(assets, chunks[..k + 1], x) == if Inside(chunks[k], x) then ByteIn(assets, chunks[k], x) else ByteAt(assets, chunks[..k], x)
  {
    var more := chunks[..k + 1];
    assert more[k] == chunks[k] && more[..k] == chunks[..k];
    if Inside(chunks[k], x) {
      ByteAtChunk(assets, more, k, x);
    } else if j :| 0 <= j < k && Inside(chunks[j], x) {
      ByteAtChunk(assets, more, j, x);
      ByteAtChunk(assets, chunks[..k], j, x);
    } else {
      ByteAtGap(assets, more, x);
      ByteAtGap(assets, chunks[..k], x);
    }
  }
}
