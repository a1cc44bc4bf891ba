/** One stored file as the overlay sees it: a byte sequence and the five verbs that read
    and publish it. */
module HubFile {
  import opened Errnos
  import opened FileBytes
  import opened Numbers
  import opened ByteRanges

  const MAX_RELEASE_ASSET := 0x7FFF_FFFF
  const MAX_ZERO_EXTEND := 16 * 1024 * 1024

  /** A configured chunk size, clamped to what one release asset can hold. */
  function NormalizedChunkSize(chunkSize: int): (size: int)
    ensures 1 <= size <= MAX_RELEASE_ASSET
    ensures size == if 1 <= chunkSize <= 0x7FFF_FFFF then chunkSize else 0x7FFF_FFFF
  {
    if chunkSize <= 0 then MAX_RELEASE_ASSET
    else if chunkSize > MAX_RELEASE_ASSET then MAX_RELEASE_ASSET
    else chunkSize
  }

  /** Replaces `[start, start + deleteSize)` by `data`. */
  datatype RangeEdit = RangeEdit(start: int, deleteSize: int, data: seq<Byte>) {
    function End(): int {
      start + deleteSize
    }
  }

  /** What the hub checks before it uploads anything. */
  predicate BatchAccepted(edits: seq<RangeEdit>, size: nat) {
    && |edits| > 0
    && (forall i :: 0 <= i < |edits| ==> edits[i].start >= 0 && edits[i].deleteSize >= 0)
    && (forall i :: 0 <= i < |edits| ==> edits[i].deleteSize > 0 || |edits[i].data| > 0)
    && (forall i :: 1 <= i < |edits| ==> edits[i - 1].End() <= edits[i].start)
    && (forall i :: 0 <= i < |edits| ==> edits[i].End() <= size)
  }

  /** One edit spliced in at `at`. */
  function SpliceOne(content: seq<Byte>, at: nat, e: RangeEdit): (r: seq<Byte>)
    requires e.deleteSize >= 0 && at + e.deleteSize <= |content|
    ensures |r| == |content| - e.deleteSize + |e.data|
  {
    content[..at] + e.data + content[at + e.deleteSize..]
  }

  /** The edits are in order and lie inside `size` bytes once moved by `shift`. */
  predicate Inside(edits: seq<RangeEdit>, size: nat, shift: int) {
    && (forall i :: 0 <= i < |edits| ==> edits[i].start + shift >= 0 && edits[i].deleteSize >= 0)
    && (forall i, j :: 0 <= i < j < |edits| ==> edits[i].End() <= edits[j].start)
    && (forall i :: 0 <= i < |edits| ==> edits[i].End() + shift <= size)
  }

  /** The whole batch, left to right: each edit is moved by what the earlier ones added. */
  function ApplyEdits(content: seq<Byte>, edits: seq<RangeEdit>, shift: int): seq<Byte>
    requires Inside(edits, |content|, shift)
    decreases |edits|
  {
    if edits == [] then content
    else
      var e := edits[0];
      ApplyEdits(SpliceOne(content, e.start + shift, e), edits[1..], shift + |e.data| - e.deleteSize)
  }

  /** What the hub checks of a batch is what applying it needs. */
  lemma AcceptedInside(edits: seq<RangeEdit>, size: nat)
    requires BatchAccepted(edits, size)
    ensures Inside(edits, size, 0)
  {
    forall i, j | 0 <= i < j < |edits| ensures edits[i].End() <= edits[j].start {
      OrderedEdits(edits, i, j);
    }
  }

  lemma {:induction false} OrderedEdits(edits: seq<RangeEdit>, i: nat, j: nat)
    requires i < j < |edits|
    requires forall k :: 0 <= k < |edits| ==> edits[k].deleteSize >= 0
    requires forall k :: 1 <= k < |edits| ==> edits[k - 1].End() <= edits[k].start
    ensures edits[i].End() <= edits[j].start
    decreases j
  {
    if i < j - 1 {
      OrderedEdits(edits, i, j - 1);
      assert edits[j - 1].End() <= edits[j].start;
    }
  }

  /** Whether the chunk-sized segment that holds `x` meets one of the ranges. */
  predicate SegmentTouched(x: nat, finalSize: nat, chunkSize: nat, ranges: seq<ByteRange>)
    requires chunkSize > 0
  {
    var lo := x / chunkSize * chunkSize;
    var hi := Min(lo + chunkSize, finalSize);
    exists k :: 0 <= k < |ranges| && lo < ranges[k].end && ranges[k].start < hi
  }

  /** A chunk rewrite: touched segments come from the snapshot, the others are referenced. */
  function Rewritten(content: seq<Byte>, snapshot: seq<Byte>, finalSize: nat, chunkSize: nat, ranges: seq<ByteRange>): (r: seq<Byte>)
    requires chunkSize > 0
    ensures |r| == finalSize
    ensures forall x :: 0 <= x < finalSize ==>
      r[x] == if SegmentTouched(x, finalSize, chunkSize, ranges) then At(snapshot, x) else At(content, x)
  {
    seq(finalSize, x requires 0 <= x < finalSize =>
      if SegmentTouched(x, finalSize, chunkSize, ranges) then At(snapshot, x) else At(content, x))
  }

  /** A batch the hub accepts, applied. */
  function Patched(content: seq<Byte>, edits: seq<RangeEdit>): seq<Byte>
    requires BatchAccepted(edits, |content|)
  {
    AcceptedInside(edits, |content|);
    ApplyEdits(content, edits, 0)
  }

  // ----- publishing over a network

  /** What becomes of a request that changes the file: it is carried out and confirmed, it never
      arrives, or it is carried out and the answer is lost. */
  datatype Fate = Confirmed | Lost | Unanswered

  /** The fate of the next request; what is not foretold is confirmed. */
  function First(fates: seq<Fate>): Fate {
    if fates == [] then Confirmed else fates[0]
  }

  function Later(fates: seq<Fate>): seq<Fate> {
    if fates == [] then [] else fates[1..]
  }

  /** What is stored after some requests, whether the caller learns that they went through, and the
      fates of those to come. */
  datatype Sent = Sent(content: seq<Byte>, ok: bool, left: seq<Fate>)

  function Send(was: seq<Byte>, now: seq<Byte>, fates: seq<Fate>): Sent {
    Sent(if First(fates) == Lost then was else now, First(fates) == Confirmed, Later(fates))
  }

  function SendTruncate(content: seq<Byte>, size: nat, fates: seq<Fate>): Sent {
    if size > |content| + MAX_ZERO_EXTEND then Sent(content, false, Later(fates)) else Send(content, Resize(content, size), fates)
  }

  function SendPatch(content: seq<Byte>, edits: seq<RangeEdit>, fates: seq<Fate>): Sent {
    if !BatchAccepted(edits, |content|) then Sent(content, false, Later(fates)) else Send(content, Patched(content, edits), fates)
  }

  /** The stored content of the file at the hub. `fates` foretells the requests that change it;
      unless `reliable`, any read may fail. */
  class Hub {
    var content: seq<Byte>
    var fates: seq<Fate>
    const reliable: bool

    constructor (content: seq<Byte>, fates: seq<Fate>, reliable: bool)
      ensures this.content == content && this.fates == fates && this.reliable == reliable
    {
      this.content := content;
      this.fates := fates;
      this.reliable := reliable;
    }

    /** A ranged read: clamped to the end of the file, or a network failure. */
    method ReadFileAt(offset: nat, length: nat) returns (ok: bool, data: seq<Byte>)
      ensures ok ==> data == ReadAt(content, offset, length)
      ensures reliable ==> ok
    {
      ok := reliable;
      if !reliable {
        ok := *;
      }
      data := ReadAt(content, offset, length);
    }

    /** The fate of the request at hand. */
    method NextFate() returns (fate: Fate)
      modifies this`fates
      ensures fate == First(old(fates)) && fates == Later(old(fates))
    {
      if fates == [] {
        return Confirmed;
      }
      fate := fates[0];
      fates := fates[1..];
    }

    /** What the request was sent for, and the answer. */
    ghost predicate Answered(sent: Sent, err: Errno)
      reads this
    {
      content == sent.content && fates == sent.left && (err == OK <==> sent.ok)
    }

    /** Resizes the file; growth uploads real zeros and is capped. */
    method TruncateFile(size: nat) returns (err: Errno)
      modifies this
      ensures Answered(SendTruncate(old(content), size, old(fates)), err)
    {
      var fate := NextFate();
      if fate == Lost {
        return EIO;
      }
      if size < |content| {
        content := SpliceOne(content, size, RangeEdit(size, |content| - size, []));
      } else if size > |content| {
        if size - |content| > MAX_ZERO_EXTEND {
          return EFBIG;
        }
        content := SpliceOne(content, |content|, RangeEdit(|content|, 0, Zeros(size - |content|)));
      }
      err := if fate == Confirmed then OK else EIO;
    }

    /** Replaces the whole file by a local one. */
    method ReplaceFile(input: seq<Byte>) returns (err: Errno)
      modifies this
      ensures Answered(Send(old(content), input, old(fates)), err)
    {
      var fate := NextFate();
      if fate == Lost {
        return EIO;
      }
      content := input;
      err := if fate == Confirmed then OK else EIO;
    }

    /** Rebuilds the chunks that meet `ranges` from a local snapshot. */
    method RewriteFileRanges(snapshot: seq<Byte>, finalSize: nat, chunkSize: nat, ranges: seq<ByteRange>) returns (err: Errno)
      requires chunkSize > 0
      modifies this
      ensures Answered(Send(old(content), Rewritten(old(content), snapshot, finalSize, chunkSize, ranges), old(fates)), err)
    {
      var fate := NextFate();
      if fate == Lost {
        return EIO;
      }
      content := Rewritten(content, snapshot, finalSize, chunkSize, ranges);
      err := if fate == Confirmed then OK else EIO;
    }

    /** Applies a batch of edits, all or nothing. */
    method PatchFileRanges(edits: seq<RangeEdit>) returns (err: Errno)
      modifies this
      ensures Answered(SendPatch(old(content), edits, old(fates)), err)
    {
      var fate := NextFate();
      if fate == Lost || !BatchAccepted(edits, |content|) {
        return EIO;
      }
      content := Patched(content, edits);
      err := if fate == Confirmed then OK else EIO;
    }
  }
}
