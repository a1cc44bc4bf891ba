/** Reading another handle's live overlay: the temp is read straight across the clean gaps, and
    the gaps are overwritten from the pinned snapshot afterwards. */
module LiveRead {
  import opened Options
  import opened Errnos
  import opened FileBytes
  import opened Numbers
  import opened ByteRanges
  import opened HubFile
  import opened Overlay

  /** What the reader's own snapshot answers: the bytes it has, an end-of-file error, or a failure. */
  datatype PinnedRead = Data(data: seq<Byte>) | EndOfFile | Failure

  /** The content a handle pinned when it was opened; `reliable` means no read of it fails. */
  class Pin {
    const content: seq<Byte>
    const reliable: bool

    constructor (content: seq<Byte>, reliable: bool)
      ensures this.content == content && this.reliable == reliable
    {
      this.content, this.reliable := content, reliable;
    }

    method ReadFromPinned(off: nat, length: nat) returns (r: PinnedRead)
      ensures r.Data? ==> r.data == ReadAt(content, off, length)
      ensures r.EndOfFile? ==> off >= |content|
      ensures reliable ==> !r.Failure?
    {
      var fails: bool := *;
      if fails && !reliable {
        return Failure;
      }
      if off >= |content| {
        return EndOfFile;
      }
      r := Data(ReadAt(content, off, length));
    }
  }

  /** The snapshot is the base the overlay reads through. */
  predicate SamePin(pin: Pin, s: WriteState)
    reads s, s.hub
  {
    s.baseSize == |pin.content| <= |s.Base()| && forall x :: 0 <= x < s.baseSize ==> pin.content[x] == s.Base()[x]
  }

  /** A clean byte shows the snapshot, and zero past its end. */
  lemma CleanShowsPin(pin: Pin, s: WriteState, x: int)
    requires s.Valid() && SamePin(pin, s) && 0 <= x < s.logicalSize && !Covers(s.dirtyRanges, x)
    ensures s.View()[x] == At(pin.content, x)
  {
    assert s.View()[x] == s.VisibleAt(x);
  }

  lemma DirtyShowsTemp(s: WriteState, x: int)
    requires s.Valid() && 0 <= x < s.logicalSize && Covers(s.dirtyRanges, x)
    ensures s.View()[x] == At(s.TempBytes(), x)
  {
    assert s.View()[x] == s.VisibleAt(x);
  }

  /** A read that finds nothing changed can be served from the pinned file: both show the same. */
  lemma UnchangedIsBase(s: WriteState)
    requires s.Valid() && s.dirtyRanges == [] && s.logicalSize == s.baseSize == |s.Base()|
    ensures s.View() == s.Base()
  {
    forall x | 0 <= x < s.logicalSize ensures s.View()[x] == s.Base()[x] {
      assert s.View()[x] == s.VisibleAt(x);
    }
  }

  /** The buffer after the dirty spans below `k`: everything before `pos` holds temp bytes, and
      what of it is clean is listed, span by span. */
  ghost predicate Swept(s: WriteState, dest: array<Byte>, off: nat, limit: nat, k: nat, pos: nat, clean: seq<ByteRange>)
    reads s, dest
  {
    && k <= |s.dirtyRanges| && off <= pos <= off + limit && limit <= dest.Length
    && (forall i :: 0 <= i < pos - off ==> dest[i] == At(s.TempBytes(), off + i))
    && (forall c :: 0 <= c < |clean| ==> off <= clean[c].start < clean[c].end <= pos)
    && (forall x :: off <= x < pos ==> (Covers(clean, x) <==> !Covers(s.dirtyRanges, x)))
    && Passed(s.dirtyRanges, off, limit, k, pos)
  }

  /** The spans below `k` lie behind `pos` or beyond the read, the others ahead of `pos`. */
  predicate Passed(dirty: seq<ByteRange>, off: nat, limit: nat, k: nat, pos: nat)
    requires k <= |dirty|
  {
    && (forall j :: 0 <= j < k ==> dirty[j].end <= pos || pos == off + limit || off + limit <= dirty[j].start)
    && (forall j :: k <= j < |dirty| ==> pos == off || pos <= dirty[j].start)
  }

  /** `closed` says that the state has been closed since it was found. */
  method ReadLiveOverlay(s: WriteState, closed: bool, pin: Pin, dest: array<Byte>, off: int) returns (served: bool, n: nat, err: Errno)
    requires s.Valid()
    modifies dest
    ensures off >= 0 && s.poisoned ==> served && err == EIO
    // The overlay serves what it may differ in from the pinned file.
    ensures off < 0 || !s.poisoned ==>
      served == (off >= 0 && !closed && s.temp.Some? && (s.dirtyRanges != [] || s.logicalSize != s.baseSize))
    ensures !served ==> dest[..] == old(dest[..])
    ensures served && err == OK ==> off >= 0 && n == |ReadAt(s.View(), off, dest.Length)|
    ensures served && err == OK && SamePin(pin, s) ==> dest[..n] == ReadAt(s.View(), off, dest.Length)
    ensures err == OK || err == EIO
    ensures pin.reliable && !s.poisoned ==> err == OK
  {
    if off < 0 {
      return false, 0, OK;
    }
    if s.poisoned {
      return true, 0, EIO;
    }
    if closed || s.temp.None? {
      return false, 0, OK;
    }
    if |s.dirtyRanges| == 0 && s.logicalSize == s.baseSize {
      return false, 0, OK;
    }
    if off >= s.logicalSize || dest.Length == 0 {
      return true, 0, OK;
    }
    var limit := dest.Length;
    if limit > s.logicalSize - off {
      limit := s.logicalSize - off;
    }
    var clean := SweepDirty(s, dest, off, limit);
    err := FillClean(s, pin, dest, off, limit, clean);
    n := limit;
    if err == OK && SamePin(pin, s) {
      assert dest[..n] == ReadAt(s.View(), off, dest.Length);
    }
    return true, n, err;
  }

  /** The first loop, under the state's lock. */
  method SweepDirty(s: WriteState, dest: array<Byte>, off: nat, limit: nat) returns (clean: seq<ByteRange>)
    requires s.Valid() && 0 < limit <= dest.Length && off + limit <= s.logicalSize && s.temp.Some?
    modifies dest
    ensures forall i :: 0 <= i < limit && Covers(s.dirtyRanges, off + i) ==> dest[i] == At(s.TempBytes(), off + i)
    ensures forall c :: 0 <= c < |clean| ==> off <= clean[c].start < clean[c].end <= off + limit
    ensures forall x :: off <= x < off + limit ==> (Covers(clean, x) <==> !Covers(s.dirtyRanges, x))
    ensures forall i :: limit <= i < dest.Length ==> dest[i] == old(dest[i])
  {
    clean := [];
    var pos: nat := off;
    for k := 0 to |s.dirtyRanges|
      invariant Swept(s, dest, off, limit, k, pos, clean)
      invariant forall i :: limit <= i < dest.Length ==> dest[i] == old(dest[i])
    {
      var r := s.dirtyRanges[k];
      if r.end <= off || r.start >= off + limit {
        continue;
      }
      pos, clean := SweepOne(s, dest, off, limit, k, pos, clean);
    }
    if pos < off + limit {
      RestIsClean(s.dirtyRanges, off, limit, pos, clean);
      clean := clean + [ByteRange(pos, off + limit)];
    }
  }

  /** One span that meets the read: the temp is read from where the last one stopped, gap included. */
  method SweepOne(s: WriteState, dest: array<Byte>, off: nat, limit: nat, k: nat, pos: nat, clean: seq<ByteRange>)
      returns (next: nat, now: seq<ByteRange>)
    requires s.Valid() && limit > 0 && off + limit <= s.logicalSize && s.temp.Some? && k < |s.dirtyRanges|
    requires Swept(s, dest, off, limit, k, pos, clean)
    requires s.dirtyRanges[k].end > off && s.dirtyRanges[k].start < off + limit
    modifies dest
    ensures Swept(s, dest, off, limit, k + 1, next, now)
    ensures forall i :: limit <= i < dest.Length ==> dest[i] == old(dest[i])
  {
    var r := s.dirtyRanges[k];
    var from, to := Max(r.start, off), Min(r.end, off + limit);
    GapIsListed(s.dirtyRanges, off, limit, k, pos, clean, from, to);
    now := if from > pos then clean + [ByteRange(pos, from)] else clean;
    FillFromTemp(s.temp.value, dest, pos - off, pos, to - pos);
    next := to;
  }

  /** A positional read of the temp; what it does not hold reads as zero. */
  method FillFromTemp(temp: seq<Byte>, dest: array<Byte>, at: nat, pos: nat, length: nat)
    requires at + length <= dest.Length
    modifies dest
    ensures forall i :: 0 <= i < dest.Length ==>
      dest[i] == if at <= i < at + length then At(temp, pos + (i - at)) else old(dest[i])
  {
    var data := ReadAt(temp, pos, length);
    Fill(dest, at, data);
    if |data| < length {
      Fill(dest, at + |data|, Zeros(length - |data|));
    }
  }

  lemma GapIsListed(dirty: seq<ByteRange>, off: nat, limit: nat, k: nat, pos: nat, clean: seq<ByteRange>, from: int, to: int)
    requires Canonical(dirty) && k < |dirty| && off <= pos <= off + limit && limit > 0 && Passed(dirty, off, limit, k, pos)
    requires dirty[k].end > off && dirty[k].start < off + limit
    requires from == Max(dirty[k].start, off) && to == Min(dirty[k].end, off + limit)
    requires forall x :: off <= x < pos ==> (Covers(clean, x) <==> !Covers(dirty, x))
    requires forall c :: 0 <= c < |clean| ==> off <= clean[c].start < clean[c].end <= pos
    ensures pos <= to && Passed(dirty, off, limit, k + 1, to)
    ensures var now := if from > pos then clean + [ByteRange(pos, from)] else clean;
      forall x :: off <= x < to ==> (Covers(now, x) <==> !Covers(dirty, x))
  {
    var now := if from > pos then clean + [ByteRange(pos, from)] else clean;
    forall x | off <= x < to ensures Covers(now, x) <==> !Covers(dirty, x) {
      if from > pos {
        CoversConcat(clean, [ByteRange(pos, from)], x);
        CoversSingle(ByteRange(pos, from), x);
      }
      assert x >= pos ==> !Covers(clean, x);
      if x >= from {
        assert InRange(dirty[k], x);
      } else if x >= pos {
        NotBetween(dirty, off, limit, k, pos, x);
      }
    }
  }

  lemma NotBetween(dirty: seq<ByteRange>, off: nat, limit: nat, k: nat, pos: nat, x: int)
    requires Canonical(dirty) && k < |dirty| && Passed(dirty, off, limit, k, pos) && pos <= x < off + limit && x < dirty[k].start
    ensures !Covers(dirty, x)
  {
    forall j | 0 <= j < |dirty| ensures !InRange(dirty[j], x) {
      if j > k {
        assert dirty[k].end < dirty[j].start;
      }
    }
  }

  lemma RestIsClean(dirty: seq<ByteRange>, off: nat, limit: nat, pos: nat, clean: seq<ByteRange>)
    requires off <= pos < off + limit && Passed(dirty, off, limit, |dirty|, pos)
    requires forall x :: off <= x < pos ==> (Covers(clean, x) <==> !Covers(dirty, x))
    requires forall c :: 0 <= c < |clean| ==> off <= clean[c].start < clean[c].end <= pos
    ensures forall x :: off <= x < off + limit ==> (Covers(clean + [ByteRange(pos, off + limit)], x) <==> !Covers(dirty, x))
  {
    forall x | off <= x < off + limit ensures Covers(clean + [ByteRange(pos, off + limit)], x) <==> !Covers(dirty, x) {
      CoversConcat(clean, [ByteRange(pos, off + limit)], x);
      CoversSingle(ByteRange(pos, off + limit), x);
      assert x >= pos ==> !Covers(clean, x) && !Covers(dirty, x);
    }
  }

  /** The second loop: every listed gap is overwritten from the snapshot, zeros past its end. */
  method FillClean(s: WriteState, pin: Pin, dest: array<Byte>, off: nat, limit: nat, clean: seq<ByteRange>) returns (err: Errno)
    requires s.Valid() && limit <= dest.Length && off + limit <= s.logicalSize
    requires forall i :: 0 <= i < limit && Covers(s.dirtyRanges, off + i) ==> dest[i] == At(s.TempBytes(), off + i)
    requires forall c :: 0 <= c < |clean| ==> off <= clean[c].start < clean[c].end <= off + limit
    requires forall x :: off <= x < off + limit ==> (Covers(clean, x) <==> !Covers(s.dirtyRanges, x))
    modifies dest
    ensures err == OK && SamePin(pin, s) ==> forall i :: 0 <= i < limit ==> dest[i] == s.View()[off + i]
    ensures err == OK || err == EIO
    ensures pin.reliable ==> err == OK
  {
    for c := 0 to |clean|
      invariant forall i :: 0 <= i < limit && Covers(s.dirtyRanges, off + i) ==> dest[i] == At(s.TempBytes(), off + i)
      invariant forall i :: 0 <= i < limit && Covers(clean[..c], off + i) ==> dest[i] == At(pin.content, off + i)
    {
      var g := clean[c];
      ghost var before := dest[..];
      var r := pin.ReadFromPinned(g.start, g.end - g.start);
      if r.Failure? {
        return EIO;
      }
      var data := if r.Data? then r.data else [];
      Fill(dest, g.start - off, data);
      Fill(dest, g.start - off + |data|, Zeros(g.end - g.start - |data|));
      assert forall i :: 0 <= i < limit ==> dest[i] == if InRange(g, off + i) then At(pin.content, off + i) else before[i];
      NoDirtyIn(s, clean, c, off, limit);
      assert clean[..c + 1] == clean[..c] + [g];
    }
    assert clean[..|clean|] == clean;
    if SamePin(pin, s) {
      forall i | 0 <= i < limit ensures dest[i] == s.View()[off + i] {
        if Covers(s.dirtyRanges, off + i) {
          DirtyShowsTemp(s, off + i);
        } else {
          CleanShowsPin(pin, s, off + i);
        }
      }
    }
    err := OK;
  }

  lemma NoDirtyIn(s: WriteState, clean: seq<ByteRange>, c: nat, off: nat, limit: nat)
    requires c < |clean| && off <= clean[c].start < clean[c].end <= off + limit
    requires forall x :: off <= x < off + limit ==> (Covers(clean, x) <==> !Covers(s.dirtyRanges, x))
    ensures forall x :: InRange(clean[c], x) ==> !Covers(s.dirtyRanges, x)
  {
    forall x | InRange(clean[c], x) ensures !Covers(s.dirtyRanges, x) {
      assert Covers(clean, x);
    }
  }
}
