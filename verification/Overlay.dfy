/** The write overlay of one open inode: a sparse local temp, a remote base, and a
    merged list of dirty spans that says which of the two a byte comes from. Every
    operation is proved against the plain byte sequence the file stands for. */
module Overlay {
  import opened Options
  import opened Errnos
  import opened FileBytes
  import opened Numbers
  import opened ByteRanges
  import opened HubFile

  const MAX_DIRTY_RANGES := 1024
  const DEFAULT_OVERLAY_BUFFER := 128 * 1024
  const MAX_INT64 := 0x7FFF_FFFF_FFFF_FFFF

  /** The page of every overlay copy loop: never empty, never larger than one chunk. */
  function CopyPageSize(overlayBuffer: int, chunkSize: int): (page: int)
    ensures 1 <= page <= NormalizedChunkSize(chunkSize)
    ensures page == Min(if overlayBuffer > 0 then overlayBuffer else 131_072, NormalizedChunkSize(chunkSize))
  {
    var size := if overlayBuffer <= 0 then DEFAULT_OVERLAY_BUFFER else overlayBuffer;
    if size > NormalizedChunkSize(chunkSize) then NormalizedChunkSize(chunkSize) else size
  }

  /** Where the byte at `x` is read from. */
  function Visible(temp: seq<Byte>, base: seq<Byte>, baseSize: int, dirty: seq<ByteRange>, x: int): Byte {
    if Covers(dirty, x) then At(temp, x)
    else if x < baseSize then At(base, x)
    else 0
  }

  ghost function ViewOf(temp: seq<Byte>, base: seq<Byte>, baseSize: int, dirty: seq<ByteRange>, n: nat): (v: seq<Byte>)
    ensures |v| == n && forall x :: 0 <= x < n ==> v[x] == Visible(temp, base, baseSize, dirty, x)
  {
    seq(n, x requires 0 <= x < n => Visible(temp, base, baseSize, dirty, x))
  }

  /** Where a write goes: an appending one at or past the end goes to the end. */
  function LandsAt(off: nat, append: bool, size: nat): nat {
    if append && off >= size then size else off
  }

  /** An appending write at or past the end puts its bytes right behind the last one; any other goes
      where it says. */
  lemma AppendLands(content: seq<Byte>, data: seq<Byte>, off: nat)
    ensures off >= |content| ==> WriteAt(content, LandsAt(off, true, |content|), data) == content + data
    ensures off < |content| ==> LandsAt(off, true, |content|) == off
    ensures LandsAt(off, false, |content|) == off
  {
  }

  class WriteState {
    const hub: Hub
    const pageSize: int
    const chunkSize: int
    var temp: Option<seq<Byte>>
    var baseTemp: Option<seq<Byte>>
    var baseSize: int
    var logicalSize: int
    var dirtyRanges: seq<ByteRange>
    var tempAuthoritative: bool
    var poisoned: bool

    // ----- what the state stands for

    function TempBytes(): seq<Byte>
      reads this
    {
      if temp.Some? then temp.value else []
    }

    /** Clean bytes come from the local base snapshot if there is one, else from the hub. */
    function Base(): seq<Byte>
      reads this, hub
    {
      if baseTemp.Some? then baseTemp.value else hub.content
    }

    function VisibleAt(x: int): Byte
      reads this, hub
    {
      Visible(TempBytes(), Base(), baseSize, dirtyRanges, x)
    }

    /** The content a reader of the overlay sees. */
    ghost function View(): (v: seq<Byte>)
      requires 0 <= logicalSize
      reads this, hub
      ensures |v| == logicalSize && forall x :: 0 <= x < logicalSize ==> v[x] == VisibleAt(x)
    {
      ViewOf(TempBytes(), Base(), baseSize, dirtyRanges, logicalSize)
    }

    /** Dirty spans are merged and inside the file, and the temp has the file's size. */
    ghost predicate Shaped()
      reads this
    {
      && 1 <= pageSize && 1 <= chunkSize
      && 0 <= baseSize && 0 <= logicalSize
      && Canonical(dirtyRanges) && Within(dirtyRanges, 0, logicalSize)
      && (temp.Some? ==> |temp.value| == logicalSize)
      && (temp.None? ==> dirtyRanges == [] && !tempAuthoritative)
    }

    /** Holds between any two operations: besides, a clean byte past the base is a hole in
        the temp. */
    ghost predicate Valid()
      reads this
    {
      Shaped() && HolesAreZero()
    }

    ghost predicate HolesAreZero()
      reads this
    {
      forall x :: baseSize <= x < logicalSize && !Covers(dirtyRanges, x) ==> At(TempBytes(), x) == 0
    }

    /** The authoritative flag tells the truth: no byte of the file is left to the base. */
    ghost predicate Honest()
      reads this
    {
      tempAuthoritative ==> forall x :: 0 <= x < baseSize && x < logicalSize ==> Covers(dirtyRanges, x)
    }

    /** Nothing past the base is clean. */
    ghost predicate PastBaseDirty()
      reads this
    {
      forall x :: baseSize <= x < logicalSize ==> Covers(dirtyRanges, x)
    }

    /** Every byte left to the base is there. */
    ghost predicate BaseWhole()
      reads this, hub
    {
      forall x :: 0 <= x < baseSize && x < logicalSize && !Covers(dirtyRanges, x) ==> x < |Base()|
    }

    /** No byte is left to the base that was not left to it before. */
    twostate predicate NothingUncovered()
      reads this
    {
      && baseSize == old(baseSize)
      && forall x :: 0 <= x < baseSize && x < logicalSize && !Covers(dirtyRanges, x) ==>
        x < old(logicalSize) && !Covers(old(dirtyRanges), x)
    }

    /** Growing in this state leaves the grown bytes to the base instead of zeroing them. */
    predicate StaleRegrow(size: int)
      reads this
    {
      tempAuthoritative && size > logicalSize && logicalSize < baseSize
    }

    // ----- fuse_write.go

    /** The state of a file just opened for writing: all of it clean. */
    constructor (hub: Hub, size: nat, overlayBuffer: int, hubChunkSize: int, bootstrap: bool)
      ensures Valid() && Honest() && this.hub == hub && !poisoned
      ensures baseSize == logicalSize == size && dirtyRanges == [] && baseTemp == None
      ensures pageSize == CopyPageSize(overlayBuffer, hubChunkSize)
      ensures chunkSize == NormalizedChunkSize(hubChunkSize)
      ensures tempAuthoritative == (bootstrap && size == 0)
    {
      this.hub := hub;
      pageSize := CopyPageSize(overlayBuffer, hubChunkSize);
      chunkSize := NormalizedChunkSize(hubChunkSize);
      temp := Some(Zeros(size));
      baseTemp := None;
      baseSize := size;
      logicalSize := size;
      dirtyRanges := [];
      tempAuthoritative := bootstrap && size == 0;
      poisoned := false;
    }

    /** The base snapshot takes over the dirty bytes, a page at a time. */
    method RefreshBaseSnapshot()
      requires 1 <= pageSize && 0 <= logicalSize && Canonical(dirtyRanges) && Within(dirtyRanges, 0, logicalSize)
      requires dirtyRanges != [] ==> temp.Some? && |temp.value| == logicalSize
      modifies this`baseTemp
      ensures old(baseTemp).None? ==> baseTemp.None?
      ensures old(baseTemp).Some? ==> baseTemp.Some? && |baseTemp.value| == logicalSize
      ensures old(baseTemp).Some? ==> forall x :: 0 <= x < logicalSize ==>
        baseTemp.value[x] == if Covers(dirtyRanges, x) then At(TempBytes(), x) else At(old(baseTemp).value, x)
    {
      if baseTemp.None? {
        return;
      }
      baseTemp := Some(Resize(baseTemp.value, logicalSize));
      ghost var was := baseTemp.value;
      for n := 0 to |dirtyRanges|
        invariant baseTemp.Some? && |baseTemp.value| == logicalSize
        invariant forall x :: 0 <= x < logicalSize ==>
          baseTemp.value[x] == if Covers(dirtyRanges[..n], x) then temp.value[x] else was[x]
      {
        var dirty := dirtyRanges[n];
        ghost var before := baseTemp.value;
        var offset := dirty.start;
        while offset < dirty.end
          invariant dirty.start <= offset <= dirty.end
          invariant baseTemp.Some? && |baseTemp.value| == logicalSize
          invariant forall x :: 0 <= x < logicalSize ==>
            baseTemp.value[x] == if dirty.start <= x < offset then temp.value[x] else before[x]
        {
          var want := pageSize;
          if want > dirty.end - offset {
            want := dirty.end - offset;
          }
          var data := ReadAt(temp.value, offset, want);
          baseTemp := Some(WriteAt(baseTemp.value, offset, data));
          offset := offset + |data|;
        }
        CoversGrow(dirtyRanges, n);
      }
      assert dirtyRanges[..|dirtyRanges|] == dirtyRanges;
    }

    // ----- fuse_write_ranges.go: the dirty list

    /** Records `[start, end)`, shifting the list in place. */
    method MarkDirty(start: int, end: int)
      requires Canonical(dirtyRanges)
      modifies this`dirtyRanges
      ensures IsUnion(dirtyRanges, old(dirtyRanges), Max(start, 0), end)
    {
      var s, e := start, end;
      if s < 0 {
        s := 0;
      }
      if e <= s {
        return;
      }
      var i := 0;
      while i < |dirtyRanges| && dirtyRanges[i].end < s
        invariant 0 <= i <= |dirtyRanges|
        invariant forall k :: 0 <= k < i ==> dirtyRanges[k].end < s
      {
        i := i + 1;
      }
      var j := |dirtyRanges|;
      while j > i && dirtyRanges[j - 1].start > e
        invariant i <= j <= |dirtyRanges|
        invariant forall k :: j <= k < |dirtyRanges| ==> e < dirtyRanges[k].start
      {
        j := j - 1;
      }
      ghost var was := dirtyRanges;
      if i == j {
        HullIsUnion(was, i, j, s, e, ByteRange(s, e));
        dirtyRanges := dirtyRanges[..i] + [ByteRange(s, e)] + dirtyRanges[i..];
        return;
      }
      RunTouches(was, i, j, s, e);
      var hullStart, hullEnd := s, e;
      if dirtyRanges[i].start < hullStart {
        hullStart := dirtyRanges[i].start;
      }
      if dirtyRanges[j - 1].end > hullEnd {
        hullEnd := dirtyRanges[j - 1].end;
      }
      HullIsUnion(was, i, j, s, e, ByteRange(hullStart, hullEnd));
      dirtyRanges := dirtyRanges[i := ByteRange(hullStart, hullEnd)];
      dirtyRanges := dirtyRanges[..i + 1] + dirtyRanges[j..];
      assert dirtyRanges == was[..i] + [ByteRange(hullStart, hullEnd)] + was[j..];
    }

    /** Drops everything at or past `size` from the list. */
    method TruncateDirtyRanges(size: int)
      requires Canonical(dirtyRanges)
      modifies this`dirtyRanges
      ensures Canonical(dirtyRanges)
      ensures forall x :: Covers(dirtyRanges, x) <==> Covers(old(dirtyRanges), x) && x < size
    {
      var trimmed: seq<ByteRange> := [];
      ghost var was := dirtyRanges;
      for n := 0 to |dirtyRanges|
        invariant dirtyRanges == was
        invariant Canonical(trimmed)
        invariant forall x :: Covers(trimmed, x) <==> Covers(was[..n], x) && x < size
        invariant forall k :: 0 <= k < |trimmed| ==> exists m :: 0 <= m < n && TrimOf(trimmed[k], was[m], size)
      {
        var existing := dirtyRanges[n];
        assert was[..n + 1] == was[..n] + [was[n]];
        forall x ensures Covers(was[..n + 1], x) <==> Covers(was[..n], x) || InRange(was[n], x) {
          CoversConcat(was[..n], [was[n]], x);
          CoversSingle(was[n], x);
        }
        if existing.start >= size {
          continue;
        }
        if existing.end > size {
          existing := existing.(end := size);
        }
        forall x ensures Covers(trimmed + [existing], x) <==> Covers(trimmed, x) || InRange(existing, x) {
          CoversConcat(trimmed, [existing], x);
          CoversSingle(existing, x);
        }
        assert TrimOf(existing, was[n], size);
        trimmed := trimmed + [existing];
      }
      assert was[..|was|] == was;
      dirtyRanges := trimmed;
    }

    /** Whether every offset of `[start, end)` is dirty. */
    method CoversRange(start: int, end: int) returns (b: bool)
      requires Canonical(dirtyRanges)
      ensures b <==> forall x :: start <= x < end ==> Covers(dirtyRanges, x)
    {
      if start >= end {
        return true;
      }
      var covered := start;
      for n := 0 to |dirtyRanges|
        invariant start <= covered < end
        invariant forall x :: start <= x < covered ==> Covers(dirtyRanges, x)
        invariant forall k :: 0 <= k < n ==> dirtyRanges[k].end <= covered
      {
        var existing := dirtyRanges[n];
        if existing.end <= covered {
          continue;
        }
        if existing.start > covered {
          NotCovered(dirtyRanges, n, covered);
          return false;
        }
        assert forall x :: covered <= x < existing.end ==> InRange(dirtyRanges[n], x);
        covered := existing.end;
        if covered >= end {
          return true;
        }
      }
      NotCovered(dirtyRanges, |dirtyRanges|, covered);
      return false;
    }

    /** Whether `offset` is dirty, and the span that holds it or the next one after it. */
    method NextDirtyRange(offset: int) returns (dirty: bool, r: ByteRange)
      requires Canonical(dirtyRanges) && offset >= 0
      ensures dirty == Covers(dirtyRanges, offset)
      ensures dirty ==> InRange(r, offset) && forall x :: InRange(r, x) ==> Covers(dirtyRanges, x)
      ensures !dirty ==> (r == ByteRange(-1, -1) || offset < r.start)
      ensures !dirty ==> forall x :: offset <= x && (r.start >= 0 ==> x < r.start) ==> !Covers(dirtyRanges, x)
    {
      for n := 0 to |dirtyRanges|
        invariant forall k :: 0 <= k < n ==> dirtyRanges[k].end <= offset
      {
        var existing := dirtyRanges[n];
        if offset >= existing.start && offset < existing.end {
          return true, existing;
        }
        if existing.start > offset {
          forall x | offset <= x < existing.start ensures !Covers(dirtyRanges, x) {
            NotCovered(dirtyRanges, n, x);
          }
          return false, existing;
        }
      }
      forall x | offset <= x ensures !Covers(dirtyRanges, x) {
        NotCovered(dirtyRanges, |dirtyRanges|, x);
      }
      return false, ByteRange(-1, -1);
    }

    // ----- fuse_write_ranges.go: sizes

    method EnsureTemp()
      requires 0 <= logicalSize
      modifies this`temp
      ensures temp == Some(if old(temp).Some? then old(temp).value else Zeros(logicalSize))
      ensures View() == old(View())
    {
      if temp.Some? {
        return;
      }
      temp := Some(Zeros(logicalSize));
    }

    /** The one setter of the overlay size: the temp is cut or extended, the list is trimmed. */
    method SetLogicalSize(n: nat)
      requires 0 <= logicalSize && Canonical(dirtyRanges)
      modifies this`temp, this`logicalSize, this`dirtyRanges
      ensures logicalSize == n && Canonical(dirtyRanges)
      ensures temp == Some(Resize(if old(temp).Some? then old(temp).value else Zeros(old(logicalSize)), n))
      ensures forall x :: Covers(dirtyRanges, x) <==> Covers(old(dirtyRanges), x) && x < n
    {
      EnsureTemp();
      temp := Some(Resize(temp.value, n));
      logicalSize := n;
      TruncateDirtyRanges(n);
    }

    /** ftruncate on the overlay. The result is the resized content except in one family of
        states, where the grown bytes show the base that an earlier truncate had hidden. */
    method SetSize(size: int) returns (err: Errno)
      requires Valid()
      modifies this
      ensures Valid()
      ensures err == if size < 0 then EINVAL else if old(poisoned) then EIO else OK
      ensures err != OK ==> unchanged(this)
      ensures err == OK ==> logicalSize == size && baseSize == old(baseSize) && poisoned == old(poisoned)
      ensures err == OK ==> tempAuthoritative == (old(tempAuthoritative) || size == 0)
      ensures err == OK ==> baseTemp == if size == 0 then None else old(baseTemp)
      ensures err == OK ==> forall x :: Covers(dirtyRanges, x) <==>
        x < size && (Covers(old(dirtyRanges), x) || (!old(tempAuthoritative) && old(logicalSize) <= x))
      ensures err == OK && !old(StaleRegrow(size)) ==> View() == Resize(old(View()), size)
      ensures err == OK && !old(StaleRegrow(size)) && old(Honest()) ==> Honest()
      ensures err == OK && !old(StaleRegrow(size)) ==> NothingUncovered()
      ensures err == OK && old(StaleRegrow(size)) ==> !Honest()
      ensures err == OK && old(StaleRegrow(size)) ==>
        (forall x :: 0 <= x < size ==>
          View()[x] == if x < old(logicalSize) then old(View())[x] else if x < baseSize then At(Base(), x) else 0)
      ensures err == OK && (!old(tempAuthoritative) || size <= old(logicalSize)) && old(PastBaseDirty()) ==> PastBaseDirty()
    {
      if size < 0 {
        return EINVAL;
      }
      if poisoned {
        return EIO;
      }
      var oldSize := logicalSize;
      ghost var view := View();
      CoverWithin(dirtyRanges, 0, logicalSize);
      SetLogicalSize(size);
      if size == 0 {
        tempAuthoritative := true;
        baseTemp := None;
      } else if size > oldSize && !tempAuthoritative {
        ZeroFill(oldSize, size);
        MarkDirty(oldSize, size);
      }
      WithinCover(dirtyRanges, 0, size);
      assert old(StaleRegrow(size)) ==> !Covers(dirtyRanges, oldSize);
      return OK;
    }

    /** Writes zeros over `[from, to)` of the temp, a page at a time. */
    method ZeroFill(from: nat, to: nat)
      requires 1 <= pageSize && temp.Some? && from <= to <= |temp.value|
      modifies this`temp
      ensures temp.Some? && |temp.value| == |old(temp).value|
      ensures forall x :: 0 <= x < |temp.value| ==>
        temp.value[x] == if from <= x < to then 0 else old(temp).value[x]
    {
      var offset := from;
      while offset < to
        invariant from <= offset <= to
        invariant temp.Some? && |temp.value| == |old(temp).value|
        invariant forall x :: 0 <= x < |temp.value| ==>
          temp.value[x] == if from <= x < offset then 0 else old(temp).value[x]
      {
        var n := pageSize;
        if to - offset < n {
          n := to - offset;
        }
        temp := Some(WriteAt(temp.value, offset, Zeros(n)));
        offset := offset + n;
      }
    }

    // ----- fuse_write_ranges.go: reads

    /** Fills `dest[..want]` with the content visible at `off`: dirty spans from the temp,
        clean ones from the base. What it has filled is right even when it fails. */
    method ReadInto(dest: array<Byte>, want: nat, off: nat) returns (n: nat, err: Errno)
      requires Valid() && want <= dest.Length
      modifies dest, this`temp
      ensures Valid() && View() == old(View()) && (old(temp).Some? ==> temp == old(temp))
      ensures n <= |ReadAt(View(), off, want)|
      ensures forall i :: 0 <= i < n ==> dest[i] == View()[off + i]
      ensures err == OK ==> n == |ReadAt(View(), off, want)|
      ensures err == OK || err == EIO
      ensures forall i :: want <= i < dest.Length ==> dest[i] == old(dest[i])
      ensures hub.reliable && BaseWhole() ==> err == OK
    {
      if off >= logicalSize || want == 0 {
        return 0, OK;
      }
      var limit := want;
      var capN := logicalSize - off;
      if limit > capN {
        limit := capN;
      }
      var filled := 0;
      ghost var view := View();
      while filled < limit
        invariant 0 <= filled <= limit
        invariant temp == old(temp) || (old(temp).None? && temp == Some(Zeros(logicalSize)))
        invariant View() == view && Filled(dest, filled, view, off)
        invariant forall i :: want <= i < dest.Length ==> dest[i] == old(dest[i])
      {
        var ok, next := ReadSegment(dest, off, filled, limit);
        if !ok {
          return filled, EIO;
        }
        filled := next;
      }
      return filled, OK;
    }

    /** One turn of the read loop: the segment that starts at `off + filled`. */
    method ReadSegment(dest: array<Byte>, off: nat, filled: nat, limit: nat) returns (ok: bool, next: nat)
      requires Canonical(dirtyRanges) && Within(dirtyRanges, 0, logicalSize)
      requires filled < limit <= dest.Length && off + limit <= logicalSize
      requires Filled(dest, filled, View(), off)
      modifies dest, this`temp
      ensures temp == old(temp) || (old(temp).None? && temp == Some(Zeros(logicalSize)))
      ensures View() == old(View())
      ensures ok ==> filled < next <= limit && Filled(dest, next, View(), off)
      ensures !ok ==> Filled(dest, filled, View(), off)
      ensures forall i :: limit <= i < dest.Length ==> dest[i] == old(dest[i])
      ensures hub.reliable && BaseWhole() ==> ok
    {
      var segmentStart := off + filled;
      var visibleBaseSize := Min(baseSize, logicalSize);
      var dirty, r := NextDirtyRange(segmentStart);
      if dirty {
        var chunkEnd := r.end;
        if chunkEnd > off + limit {
          chunkEnd := off + limit;
        }
        EnsureTemp();
        FillDirty(dest, off, filled, chunkEnd - off);
        return true, chunkEnd - off;
      }
      var cleanEnd := off + limit;
      if r.start >= 0 && r.start < cleanEnd {
        cleanEnd := r.start;
      }
      if segmentStart >= visibleBaseSize {
        FillHole(dest, off, filled, cleanEnd - off);
        return true, cleanEnd - off;
      }
      var readEnd := cleanEnd;
      if readEnd > visibleBaseSize {
        readEnd := visibleBaseSize;
      }
      var got;
      ok, got := FillClean(dest, off, filled, readEnd - off);
      if !ok || got == 0 {
        return false, filled;
      }
      return true, filled + got;
    }

    /** One dirty segment, up to `next`: a short temp read is completed with zeros. */
    method FillDirty(dest: array<Byte>, off: nat, filled: nat, next: nat)
      requires temp.Some? && filled <= next <= dest.Length && off + next <= logicalSize
      requires forall x :: off + filled <= x < off + next ==> Covers(dirtyRanges, x)
      requires Filled(dest, filled, View(), off)
      modifies dest
      ensures Filled(dest, next, View(), off)
      ensures forall i :: next <= i < dest.Length ==> dest[i] == old(dest[i])
    {
      var data := ReadAt(temp.value, off + filled, next - filled);
      Fill(dest, filled, data);
      if |data| < next - filled {
        Fill(dest, filled + |data|, Zeros(next - filled - |data|));
      }
    }

    /** One clean segment past the base: a hole. */
    method FillHole(dest: array<Byte>, off: nat, filled: nat, next: nat)
      requires filled <= next <= dest.Length && off + next <= logicalSize
      requires forall x :: off + filled <= x < off + next ==> !Covers(dirtyRanges, x) && baseSize <= x
      requires Filled(dest, filled, View(), off)
      modifies dest
      ensures Filled(dest, next, View(), off)
      ensures forall i :: next <= i < dest.Length ==> dest[i] == old(dest[i])
    {
      Fill(dest, filled, Zeros(next - filled));
    }

    /** One clean segment below the base size; the base may return fewer bytes than asked. */
    method FillClean(dest: array<Byte>, off: nat, filled: nat, next: nat) returns (ok: bool, got: nat)
      requires filled < next <= dest.Length && off + next <= logicalSize && off + next <= baseSize
      requires forall x :: off + filled <= x < off + next ==> !Covers(dirtyRanges, x)
      requires Filled(dest, filled, View(), off)
      modifies dest
      ensures got <= next - filled && Filled(dest, filled + got, View(), off)
      ensures !ok ==> got == 0
      ensures forall i :: next <= i < dest.Length ==> dest[i] == old(dest[i])
      ensures ok && off + filled < |Base()| ==> got > 0
      ensures hub.reliable ==> ok
    {
      var data;
      ok, data := ReadBase(off + filled, next - filled);
      if !ok {
        return false, 0;
      }
      got := |data|;
      assert forall i :: 0 <= i < got ==> data[i] == VisibleAt(off + filled + i);
      FillFrom(dest, off, filled, data);
    }

    /** Extends a filled buffer by bytes that are shown. */
    method FillFrom(dest: array<Byte>, off: nat, filled: nat, data: seq<Byte>)
      requires filled + |data| <= dest.Length && off + filled + |data| <= logicalSize
      requires Filled(dest, filled, View(), off)
      requires forall i :: 0 <= i < |data| ==> data[i] == VisibleAt(off + filled + i)
      modifies dest
      ensures Filled(dest, filled + |data|, View(), off)
      ensures forall i :: filled + |data| <= i < dest.Length ==> dest[i] == old(dest[i])
    {
      ghost var view := View();
      Fill(dest, filled, data);
      forall i | 0 <= i < filled + |data| ensures dest[i] == view[off + i] {
        if i >= filled {
          assert data[i - filled] == VisibleAt(off + i);
        }
      }
    }

    /** A clean read: the base snapshot is local, the hub is a network call. */
    method ReadBase(offset: nat, length: nat) returns (ok: bool, data: seq<Byte>)
      ensures ok ==> data == ReadAt(Base(), offset, length)
      ensures hub.reliable ==> ok
    {
      if baseTemp.Some? {
        return true, ReadAt(baseTemp.value, offset, length);
      }
      ok, data := hub.ReadFileAt(offset, length);
    }

    // ----- fuse_write_ranges.go: bounding the list

    /** Copies the base bytes of the clean gap `[from, to)` into the temp. Nothing visible
        changes, however far it gets. */
    method BackfillGap(from: nat, to: nat) returns (err: Errno)
      requires Valid() && temp.Some? && to <= logicalSize
      requires forall x :: from <= x < to ==> !Covers(dirtyRanges, x)
      modifies this`temp
      ensures Valid() && temp.Some? && View() == old(View())
      ensures forall x :: 0 <= x < logicalSize && !(from <= x < to && x < baseSize) ==> temp.value[x] == old(temp).value[x]
      ensures err == OK ==> forall x :: from <= x < to && x < baseSize ==> temp.value[x] == At(Base(), x)
      ensures err == OK || err == EIO
      ensures hub.reliable && BaseWhole() ==> err == OK
    {
      var end := to;
      if end > baseSize {
        end := baseSize;
      }
      if from >= end {
        return OK;
      }
      var offset := from;
      while offset < end
        invariant from <= offset <= end
        invariant temp.Some? && |temp.value| == logicalSize
        invariant forall x :: 0 <= x < logicalSize && !(from <= x < end) ==> temp.value[x] == old(temp).value[x]
        invariant forall x :: from <= x < offset ==> temp.value[x] == At(Base(), x)
      {
        var want := pageSize;
        if want > end - offset {
          want := end - offset;
        }
        assert !Covers(dirtyRanges, offset);
        var ok, data := ReadBase(offset, want);
        if !ok || |data| == 0 {
          return EIO;
        }
        temp := Some(WriteAt(temp.value, offset, data));
        offset := offset + |data|;
      }
      return OK;
    }

    /** Brings the whole content into the temp and collapses the list to one span. If the
        base cannot be read the list is left as it was; either way nothing visible changes. */
    method Coalesce() returns (err: Errno)
      requires Valid()
      modifies this`temp, this`dirtyRanges, this`tempAuthoritative
      ensures Valid() && View() == old(View())
      ensures err == OK || err == EIO
      ensures err != OK ==> dirtyRanges == old(dirtyRanges) && tempAuthoritative == old(tempAuthoritative)
      ensures NothingUncovered()
      ensures err == OK ==> tempAuthoritative && Honest() && PastBaseDirty()
      ensures err == OK ==> dirtyRanges == if logicalSize == 0 then [] else [ByteRange(0, logicalSize)]
      ensures hub.reliable && BaseWhole() ==> err == OK
    {
      EnsureTemp();
      err := BackfillAll();
      if err != OK {
        return err;
      }
      temp := Some(Resize(temp.value, logicalSize));
      dirtyRanges := [ByteRange(0, logicalSize)];
      if logicalSize == 0 {
        dirtyRanges := [];
      }
      tempAuthoritative := true;
      OneSpan(dirtyRanges, logicalSize);
    }

    /** The backfill loop over the gaps between the dirty spans. */
    method BackfillAll() returns (err: Errno)
      requires Valid() && temp.Some?
      modifies this`temp
      ensures Valid() && temp.Some? && View() == old(View())
      ensures err == OK || err == EIO
      ensures err == OK ==> temp.value == View()
      ensures hub.reliable && BaseWhole() ==> err == OK
    {
      ghost var view := View();
      var pos: nat := 0;
      for n := 0 to |dirtyRanges|
        invariant pos <= logicalSize && pos == if n == 0 then 0 else dirtyRanges[n - 1].end
        invariant Valid() && temp.Some? && View() == view && Copied(pos)
      {
        var r := dirtyRanges[n];
        GapIsClean(dirtyRanges, n, pos);
        err := BackfillGap(pos, r.start);
        if err != OK {
          return err;
        }
        CopiedOver(pos, r.start);
        SpanShows(r);
        pos := r.end;
      }
      GapIsClean(dirtyRanges, |dirtyRanges|, pos);
      err := BackfillGap(pos, logicalSize);
      if err == OK {
        CopiedOver(pos, logicalSize);
      }
    }

    /** The temp shows the file itself up to `pos`. */
    ghost predicate Copied(pos: nat)
      requires 0 <= logicalSize
      reads this, hub
    {
      temp.Some? && |temp.value| == logicalSize && pos <= logicalSize && forall x :: 0 <= x < pos ==> temp.value[x] == View()[x]
    }

    /** A clean stretch whose base bytes have been copied shows the file as well. */
    lemma CopiedOver(pos: nat, to: nat)
      requires Valid() && Copied(pos) && pos <= to <= logicalSize
      requires forall x :: pos <= x < to ==> !Covers(dirtyRanges, x)
      requires forall x :: pos <= x < to && x < baseSize ==> temp.value[x] == At(Base(), x)
      ensures Copied(to)
    {
      forall x | pos <= x < to ensures temp.value[x] == View()[x] {
        assert View()[x] == VisibleAt(x);
      }
    }

    lemma SpanShows(r: ByteRange)
      requires Valid() && temp.Some? && r in dirtyRanges
      ensures forall x :: r.start <= x < r.end ==> 0 <= x < logicalSize && temp.value[x] == View()[x]
    {
      forall x | r.start <= x < r.end ensures Covers(dirtyRanges, x) && 0 <= x < logicalSize {
        assert InRange(r, x);
      }
    }

    /** Keeps the list within its cap. */
    method EnsureDirtyBounded() returns (err: Errno)
      requires Valid() && Honest()
      modifies this`temp, this`dirtyRanges, this`tempAuthoritative
      ensures Valid() && Honest() && View() == old(View())
      ensures err == OK || err == EIO
      ensures NothingUncovered()
      ensures err == OK ==> |dirtyRanges| <= MAX_DIRTY_RANGES
      ensures |old(dirtyRanges)| <= MAX_DIRTY_RANGES ==> unchanged(this)
      ensures old(PastBaseDirty()) ==> PastBaseDirty()
      ensures hub.reliable && BaseWhole() ==> err == OK
    {
      if |dirtyRanges| <= MAX_DIRTY_RANGES {
        return OK;
      }
      if tempAuthoritative {
        ghost var view := View();
        assert forall x :: 0 <= x < logicalSize ==> view[x] == At(TempBytes(), x);
        dirtyRanges := [ByteRange(0, logicalSize)];
        if logicalSize == 0 {
          dirtyRanges := [];
        }
        OneSpan(dirtyRanges, logicalSize);
        assert View() == view;
        return OK;
      }
      err := Coalesce();
    }

    // ----- fuse_write_commit.go and fuse_file_write.go: data operations

    /** A write through an open handle. The bytes are in the overlay even when bounding the
        dirty list fails afterwards; an appending write past the end lands at the end. */
    method Write(data: seq<Byte>, off: nat, append: bool) returns (n: nat, err: Errno, ghost marked: seq<ByteRange>)
      requires Valid() && Honest()
      modifies this
      ensures Valid() && Honest()
      ensures old(poisoned) ==> err == EIO && n == 0 && unchanged(this)
      ensures !old(poisoned) ==> n == |data|
      ensures !old(poisoned) ==> View() == WriteAt(old(View()), LandsAt(off, append, old(logicalSize)), data)
      ensures err == OK ==> |dirtyRanges| <= MAX_DIRTY_RANGES
      // The list takes up the bytes written and the gap before them, unless it has grown too long.
      ensures !old(poisoned) ==> IsUnion(marked, old(dirtyRanges), Min(LandsAt(off, append, old(logicalSize)), old(logicalSize)),
        LandsAt(off, append, old(logicalSize)) + |data|)
      ensures !old(poisoned) && |marked| <= MAX_DIRTY_RANGES ==> dirtyRanges == marked && tempAuthoritative == old(tempAuthoritative)
      ensures old(PastBaseDirty()) ==> PastBaseDirty()
      ensures NothingUncovered() && baseTemp == old(baseTemp) && poisoned == old(poisoned)
      ensures !old(poisoned) && hub.reliable && BaseWhole() ==> err == OK
    {
      if poisoned {
        return 0, EIO, [];
      }
      var at := off;
      if append && at >= logicalSize {
        at := logicalSize;
      }
      assert at == LandsAt(off, append, logicalSize);
      err, marked := WriteBounded(data, at);
      n := |data|;
    }

    /** The write at the offset it has been given, and the bound on the list. */
    method WriteBounded(data: seq<Byte>, at: nat) returns (err: Errno, ghost marked: seq<ByteRange>)
      requires Valid() && Honest()
      modifies this`temp, this`logicalSize, this`dirtyRanges, this`tempAuthoritative
      ensures Valid() && Honest() && NothingUncovered()
      ensures View() == WriteAt(old(View()), at, data)
      ensures err == OK || err == EIO
      ensures err == OK ==> |dirtyRanges| <= MAX_DIRTY_RANGES
      ensures IsUnion(marked, old(dirtyRanges), Min(at, old(logicalSize)), at + |data|)
      ensures |marked| <= MAX_DIRTY_RANGES ==> dirtyRanges == marked && tempAuthoritative == old(tempAuthoritative)
      ensures old(PastBaseDirty()) ==> PastBaseDirty()
      ensures hub.reliable && BaseWhole() ==> err == OK
    {
      WriteDirty(data, at);
      marked := dirtyRanges;
      err := EnsureDirtyBounded();
    }

    /** The write itself, before the list is bounded. */
    method WriteDirty(data: seq<Byte>, at: nat)
      requires Valid() && Honest()
      modifies this`temp, this`logicalSize, this`dirtyRanges
      ensures Valid() && Honest() && NothingUncovered()
      ensures View() == WriteAt(old(View()), at, data)
      ensures IsUnion(dirtyRanges, old(dirtyRanges), Min(at, old(logicalSize)), at + |data|)
      ensures old(PastBaseDirty()) ==> PastBaseDirty()
    {
      EnsureTemp();
      if at > logicalSize {
        ExtendDirty(at);
      }
      StoreDirty(data, at);
    }

    /** The gap before a write past the end: zeros, and dirty. */
    method ExtendDirty(size: int)
      requires Valid() && Honest() && logicalSize < size
      modifies this`temp, this`logicalSize, this`dirtyRanges
      ensures Valid() && Honest() && temp.Some? && logicalSize == size
      ensures NothingUncovered()
      ensures View() == Resize(old(View()), size)
      ensures IsUnion(dirtyRanges, old(dirtyRanges), old(logicalSize), size)
      ensures old(PastBaseDirty()) ==> PastBaseDirty()
    {
      var oldSize := logicalSize;
      CoverWithin(dirtyRanges, 0, logicalSize);
      SetLogicalSize(size);
      MarkDirty(oldSize, size);
      WithinCover(dirtyRanges, 0, size);
    }

    /** The data itself: into the temp, the size moved if it grew, the span marked. */
    method StoreDirty(data: seq<Byte>, off: nat)
      requires Valid() && Honest() && temp.Some? && off <= logicalSize
      modifies this`temp, this`logicalSize, this`dirtyRanges
      ensures Valid() && Honest() && temp.Some?
      ensures NothingUncovered()
      ensures View() == WriteAt(old(View()), off, data)
      ensures IsUnion(dirtyRanges, old(dirtyRanges), off, off + |data|)
      ensures old(PastBaseDirty()) ==> PastBaseDirty()
    {
      CoverWithin(dirtyRanges, 0, logicalSize);
      temp := Some(WriteAt(temp.value, off, data));
      var end := off + |data|;
      if end > logicalSize {
        SetLogicalSize(end);
      }
      MarkDirty(off, end);
      WithinCover(dirtyRanges, 0, logicalSize);
    }

    /** posix_fallocate. `answer` is what the local file system says to the reservation; growing marks
        the new bytes dirty. The modes served are the plain one, keeping the size, and either of them
        without hiding stale data. */
    method Allocate(off: nat, size: nat, mode: bv32, answer: Errno) returns (err: Errno)
      requires Valid() && Honest()
      modifies this
      ensures Valid() && Honest()
      ensures err ==
        if off + size >= 0x8000_0000_0000_0000 then EINVAL
        else if ModeVerdict(mode) != OK then ModeVerdict(mode)
        else if old(poisoned) then EIO
        else if size == 0 then EINVAL
        else answer
      ensures View() == if err == OK && (mode == 0 || mode == 4) && off + size > old(logicalSize)
        then Resize(old(View()), off + size) else old(View())
      ensures old(PastBaseDirty()) ==> PastBaseDirty()
      ensures NothingUncovered() && baseTemp == old(baseTemp) && poisoned == old(poisoned)
    {
      if off > MAX_INT64 || size > MAX_INT64 || off + size > MAX_INT64 {
        return EINVAL;
      }
      err := ModeVerdict(mode);
      if err != OK {
        return;
      }
      if poisoned {
        return EIO;
      }
      err := AllocateSpan(off, size, KeepsSize(mode), answer);
    }

    method AllocateSpan(off: nat, size: nat, keep: bool, answer: Errno) returns (err: Errno)
      requires Valid() && Honest()
      modifies this`temp, this`logicalSize, this`dirtyRanges
      ensures Valid() && Honest()
      ensures err == if size == 0 then EINVAL else answer
      ensures View() == if err == OK && !keep && off + size > old(logicalSize) then Resize(old(View()), off + size) else old(View())
      ensures old(PastBaseDirty()) ==> PastBaseDirty()
      ensures NothingUncovered()
    {
      EnsureTemp();
      err := ReserveSpace(off + size, size, keep, answer);
      if err != OK {
        return;
      }
      var end := off + size;
      if !keep && end > logicalSize {
        GrowDirty(end);
      }
      return OK;
    }

    /** fallocate(2) on the temp: refuses an empty span, may be refused itself, and grows the temp
        with zeros unless asked to keep its size. */
    method ReserveSpace(end: nat, size: nat, keep: bool, answer: Errno) returns (err: Errno)
      requires temp.Some?
      modifies this`temp
      ensures err == if size == 0 then EINVAL else answer
      ensures temp == if err != OK || keep || end <= |old(temp).value| then old(temp) else Some(Resize(old(temp).value, end))
    {
      err := if size == 0 then EINVAL else answer;
      if err == OK && !keep && end > |temp.value| {
        temp := Some(Resize(temp.value, end));
      }
    }

    /** Allocate's own growth: the temp already has its new size. */
    method GrowDirty(end: int)
      requires 1 <= pageSize && 1 <= chunkSize && 0 <= baseSize && 0 <= logicalSize < end
      requires Canonical(dirtyRanges) && Within(dirtyRanges, 0, logicalSize) && HolesAreZero() && Honest()
      requires temp.Some? && |temp.value| == end
      requires forall x :: logicalSize <= x < end ==> temp.value[x] == 0
      modifies this`logicalSize, this`dirtyRanges
      ensures NothingUncovered()
      ensures Valid() && Honest() && View() == Resize(old(View()), end)
      ensures old(PastBaseDirty()) ==> PastBaseDirty()
    {
      CoverWithin(dirtyRanges, 0, logicalSize);
      MarkDirty(logicalSize, end);
      logicalSize := end;
      WithinCover(dirtyRanges, 0, end);
    }
  }

  const FALLOC_KEEP_SIZE: bv32 := 0x01
  const FALLOC_PUNCH_HOLE: bv32 := 0x02
  const FALLOC_NO_HIDE_STALE: bv32 := 0x04
  const FALLOC_KNOWN: bv32 := 0x7F
  /** Punch, collapse, zero, insert, unshare. */
  const FALLOC_REFUSED: bv32 := 0x7A

  /** Unknown modes, and a hole punched without keeping the size, are invalid; the known ones that
      move or free data are not supported. */
  function ModeVerdict(mode: bv32): (err: Errno)
    ensures err == OK <==> mode == 0 || mode == 1 || mode == 4 || mode == 5
    ensures err == EINVAL <==> mode >= 0x80 || (mode & 2 != 0 && mode & 1 == 0)
    ensures err == OK || err == EINVAL || err == EOPNOTSUPP
  {
    if mode & !FALLOC_KNOWN != 0 then EINVAL
    else if mode & FALLOC_REFUSED == 0 then OK
    else if mode & FALLOC_PUNCH_HOLE != 0 && mode & FALLOC_KEEP_SIZE == 0 then EINVAL
    else EOPNOTSUPP
  }

  predicate KeepsSize(mode: bv32)
    requires ModeVerdict(mode) == OK
    ensures KeepsSize(mode) <==> mode == 1 || mode == 5
  {
    mode & FALLOC_KEEP_SIZE != 0
  }

  /** The first `filled` bytes of the buffer are the content at `off`. */
  ghost predicate Filled(dest: array<Byte>, filled: nat, view: seq<Byte>, off: nat)
    reads dest
  {
    filled <= dest.Length && off + filled <= |view| && forall i :: 0 <= i < filled ==> dest[i] == view[off + i]
  }

  // ----- lemmas about the dirty list

  /** A merged list lies where its offsets lie. */
  lemma WithinCover(rs: seq<ByteRange>, lo: int, hi: int)
    requires Canonical(rs) && forall x :: Covers(rs, x) ==> lo <= x < hi
    ensures Within(rs, lo, hi)
  {
    forall i | 0 <= i < |rs| ensures lo <= rs[i].start && rs[i].end <= hi {
      assert InRange(rs[i], rs[i].start) && InRange(rs[i], rs[i].end - 1);
      assert Covers(rs, rs[i].start) && Covers(rs, rs[i].end - 1);
    }
  }

  lemma CoverWithin(rs: seq<ByteRange>, lo: int, hi: int)
    requires Within(rs, lo, hi)
    ensures forall x :: Covers(rs, x) ==> lo <= x < hi
  {
  }

  ghost predicate TrimOf(t: ByteRange, r: ByteRange, size: int) {
    t.start == r.start && t.end == Min(r.end, size)
  }

  lemma RunTouches(rs: seq<ByteRange>, i: nat, j: nat, start: int, end: int)
    requires Canonical(rs) && i < j <= |rs|
    requires rs[i].end >= start && rs[j - 1].start <= end
    requires forall k :: 0 <= k < i ==> rs[k].end < start
    requires forall k :: j <= k < |rs| ==> end < rs[k].start
    ensures HullOf(rs, i, j, start, end,
      ByteRange(if rs[i].start < start then rs[i].start else start, if rs[j - 1].end > end then rs[j - 1].end else end))
  {
  }

  lemma NotCovered(rs: seq<ByteRange>, n: nat, x: int)
    requires Canonical(rs) && n <= |rs|
    requires forall k :: 0 <= k < n ==> rs[k].end <= x
    requires n < |rs| ==> x < rs[n].start
    ensures !Covers(rs, x)
  {
    forall k | 0 <= k < |rs| ensures !InRange(rs[k], x) {
      if k > n {
        assert rs[n].end < rs[k].start;
      }
    }
  }

  lemma GapIsClean(rs: seq<ByteRange>, n: nat, pos: int)
    requires Canonical(rs) && n <= |rs| && pos == (if n == 0 then 0 else rs[n - 1].end)
    ensures forall x :: pos <= x && (n < |rs| ==> x < rs[n].start) ==> !Covers(rs, x)
  {
    forall x | pos <= x && (n < |rs| ==> x < rs[n].start) ensures !Covers(rs, x) {
      forall k | 0 <= k < n ensures rs[k].end <= x {
        if k < n - 1 {
          assert rs[k].end < rs[n - 1].start;
        }
      }
      NotCovered(rs, n, x);
    }
  }

  lemma OneSpan(rs: seq<ByteRange>, n: nat)
    requires rs == if n == 0 then [] else [ByteRange(0, n)]
    ensures Canonical(rs) && Within(rs, 0, n) && forall x :: Covers(rs, x) <==> 0 <= x < n
  {
    forall x | 0 <= x < n ensures Covers(rs, x) {
      assert InRange(rs[0], x);
    }
  }

  /** The three merges of the repository agree, span for span: the in-place shift of the overlay,
      the insert-and-absorb of the storage layer, and the sort-and-sweep of the file layer. */
  method MergesAgree(ws: WriteState, next: ByteRange) returns (inserted: seq<ByteRange>, merged: seq<ByteRange>)
    requires Canonical(ws.dirtyRanges) && next.start >= 0
    modifies ws`dirtyRanges
    ensures ws.dirtyRanges == inserted == merged && IsUnion(merged, old(ws.dirtyRanges), next.start, next.end)
  {
    var existing := ws.dirtyRanges;
    ws.MarkDirty(next.start, next.end);
    inserted := InsertAbsorb(existing, next);
    merged := AppendMerge(existing, next);
    UnionUnique(ws.dirtyRanges, merged, existing, next.start, next.end);
    UnionUnique(inserted, merged, existing, next.start, next.end);
  }
}
