/** The chunk-aligned plan of a rewrite: which bytes it takes along, and which it leaves behind. */
module CommitPlan {
  import opened FileBytes
  import opened Numbers
  import opened ByteRanges
  import opened HubFile

  // ----- chunk rewrite

  /** One dirty span widened to chunk boundaries, but only inside the old content. */
  function PlanOf(r: ByteRange, baseSize: nat, chunkSize: nat): (p: ByteRange)
    requires chunkSize > 0 && 0 <= r.start < r.end
    ensures 0 <= p.start <= r.start && r.end <= p.end
  {
    FloorBounds(r.start, chunkSize);
    var start := if r.start < baseSize then r.start / chunkSize * chunkSize else r.start;
    var aligned :=
      if r.end < baseSize then Min((r.end + chunkSize - 1) / chunkSize * chunkSize, baseSize) else r.end;
    ByteRange(start, Max(aligned, r.end))
  }

  lemma FloorBounds(x: nat, c: nat)
    requires c > 0
    ensures 0 <= x / c * c <= x < x / c * c + c
  {
    assert x == x / c * c + x % c;
  }

  lemma StepBelow(q: int, p: int, c: nat)
    ensures q < p ==> (q + 1) * c <= p * c
  {
    if q < p {
      assert p * c == (q + 1) * c + (p - q - 1) * c;
    }
  }

  /** Multiples of `c` do not fall inside a segment. */
  lemma SameSegment(x: nat, y: nat, c: nat)
    requires c > 0 && x / c * c <= y < x / c * c + c
    ensures y / c == x / c
  {
    FloorBounds(y, c);
    StepBelow(y / c, x / c, c);
    StepBelow(x / c, y / c, c);
  }

  lemma CeilSegment(e: nat, c: nat)
    requires c > 0 && e > 0
    ensures (e + c - 1) / c * c == (e - 1) / c * c + c
  {
    assert (e + c - 1) / c == (e - 1) / c + 1 by {
      DivAddOne(e - 1, c);
    }
  }

  lemma DivAddOne(x: nat, c: nat)
    requires c > 0
    ensures (x + c) / c == x / c + 1
  {
    FloorBounds(x, c);
    FloorBounds(x + c, c);
    var q := (x + c) / c;
    StepBelow(q, x / c + 1, c);
    StepBelow(x / c + 1, q, c);
  }

  ghost predicate InPlan(dirty: seq<ByteRange>, baseSize: nat, chunkSize: nat, x: int)
    requires chunkSize > 0 && Canonical(dirty) && forall k :: 0 <= k < |dirty| ==> 0 <= dirty[k].start
  {
    exists k :: 0 <= k < |dirty| && InRange(PlanOf(dirty[k], baseSize, chunkSize), x)
  }

  ghost predicate IsPlan(planned: seq<ByteRange>, dirty: seq<ByteRange>, baseSize: nat, chunkSize: nat)
    requires chunkSize > 0
  {
    && Canonical(planned) && Canonical(dirty) && (forall k :: 0 <= k < |dirty| ==> 0 <= dirty[k].start)
    && forall x :: Covers(planned, x) <==> InPlan(dirty, baseSize, chunkSize, x)
  }

  /** The family in which a chunk rewrite loses bytes: the file grew, the old content ended
      inside a chunk, and no old byte of that chunk is dirty while a new one is. */
  predicate TailLost(dirty: seq<ByteRange>, baseSize: nat, finalSize: nat, chunkSize: nat)
    requires chunkSize > 0
  {
    var lo := baseSize / chunkSize * chunkSize;
    && lo < baseSize
    && (exists y :: baseSize <= y < Min(lo + chunkSize, finalSize) && Covers(dirty, y))
    && (forall x :: lo <= x < baseSize ==> !Covers(dirty, x))
  }

  /** Below the old size, a dirty byte pulls its whole segment into the plan. */
  lemma SegmentPlanned(dirty: seq<ByteRange>, baseSize: nat, chunkSize: nat, d: nat, x: nat)
    requires chunkSize > 0 && Canonical(dirty) && forall k :: 0 <= k < |dirty| ==> 0 <= dirty[k].start
    requires Covers(dirty, d) && d < baseSize && x < baseSize && x / chunkSize == d / chunkSize
    ensures InPlan(dirty, baseSize, chunkSize, x)
  {
    var k :| 0 <= k < |dirty| && InRange(dirty[k], d);
    var r := dirty[k];
    FloorBounds(x, chunkSize);
    FloorBounds(d, chunkSize);
    FloorBounds(r.start, chunkSize);
    assert r.start / chunkSize * chunkSize <= x by {
      DivMono(r.start, d, chunkSize);
    }
    if r.end < baseSize {
      CeilSegment(r.end, chunkSize);
      DivMono(d, r.end - 1, chunkSize);
    }
    assert InRange(PlanOf(r, baseSize, chunkSize), x);
  }

  lemma DivMono(x: nat, y: nat, c: nat)
    requires c > 0 && x <= y
    ensures x / c <= y / c && x / c * c <= y / c * c
  {
    FloorBounds(x, c);
    FloorBounds(y, c);
    StepBelow(y / c, x / c, c);
  }

  /** A planned byte that is clean shares a segment below the old size with a dirty byte. */
  lemma PlannedClean(dirty: seq<ByteRange>, baseSize: nat, chunkSize: nat, y: nat)
    requires chunkSize > 0 && Canonical(dirty) && forall k :: 0 <= k < |dirty| ==> 0 <= dirty[k].start
    requires InPlan(dirty, baseSize, chunkSize, y) && !Covers(dirty, y)
    ensures y < baseSize && exists d :: 0 <= d < baseSize && d / chunkSize == y / chunkSize && Covers(dirty, d)
  {
    var k :| 0 <= k < |dirty| && InRange(PlanOf(dirty[k], baseSize, chunkSize), y);
    var d := WidenedFrom(dirty[k], baseSize, chunkSize, y);
    assert InRange(dirty[k], d) && Covers(dirty, d);
  }

  /** A byte that widening added lies below the old size, in the segment of an end of the span. */
  lemma WidenedFrom(r: ByteRange, baseSize: nat, chunkSize: nat, y: nat) returns (d: nat)
    requires chunkSize > 0 && 0 <= r.start < r.end
    requires InRange(PlanOf(r, baseSize, chunkSize), y) && !InRange(r, y)
    ensures y < baseSize && d < baseSize && d / chunkSize == y / chunkSize && InRange(r, d)
  {
    if y < r.start {
      d := r.start;
      FloorBounds(d, chunkSize);
      SameSegment(d, y, chunkSize);
    } else {
      d := r.end - 1;
      CeilSegment(r.end, chunkSize);
      FloorBounds(d, chunkSize);
      SameSegment(d, y, chunkSize);
    }
  }

  /** An unplanned byte in a touched segment is exactly a lost tail byte, or lies past the old size. */
  lemma TouchedUnplanned(planned: seq<ByteRange>, dirty: seq<ByteRange>, baseSize: nat, finalSize: nat, chunkSize: nat, x: nat)
    requires chunkSize > 0 && IsPlan(planned, dirty, baseSize, chunkSize)
    requires x < finalSize && x < baseSize && SegmentTouched(x, finalSize, chunkSize, planned) && !Covers(planned, x)
    ensures TailLost(dirty, baseSize, finalSize, chunkSize) && baseSize / chunkSize * chunkSize <= x
  {
    var lo := x / chunkSize * chunkSize;
    var hi := Min(lo + chunkSize, finalSize);
    FloorBounds(x, chunkSize);
    var k :| 0 <= k < |planned| && lo < planned[k].end && planned[k].start < hi;
    var y := Max(lo, planned[k].start);
    assert InRange(planned[k], y) && Covers(planned, y);
    SameSegment(x, y, chunkSize);
    if Covers(dirty, y) {
      if y < baseSize {
        SegmentPlanned(dirty, baseSize, chunkSize, y, x);
        assert false;
      }
    } else {
      PlannedClean(dirty, baseSize, chunkSize, y);
      var d :| 0 <= d < baseSize && d / chunkSize == y / chunkSize && Covers(dirty, d);
      SegmentPlanned(dirty, baseSize, chunkSize, d, x);
      assert false;
    }
    assert lo <= baseSize < lo + chunkSize;
    SameSegment(x, baseSize, chunkSize);
    forall z | lo <= z < baseSize ensures !Covers(dirty, z) {
      if Covers(dirty, z) {
        SameSegment(x, z, chunkSize);
        SegmentPlanned(dirty, baseSize, chunkSize, z, x);
        assert false;
      }
    }
  }

  /** Conversely, in that family every tail byte is unplanned and in a touched segment. */
  lemma LostTailTouched(planned: seq<ByteRange>, dirty: seq<ByteRange>, baseSize: nat, finalSize: nat, chunkSize: nat, x: nat)
    requires chunkSize > 0 && IsPlan(planned, dirty, baseSize, chunkSize)
    requires TailLost(dirty, baseSize, finalSize, chunkSize) && baseSize / chunkSize * chunkSize <= x < baseSize
    ensures x < finalSize && SegmentTouched(x, finalSize, chunkSize, planned) && !Covers(planned, x)
  {
    var lo := baseSize / chunkSize * chunkSize;
    FloorBounds(baseSize, chunkSize);
    SameSegment(baseSize, x, chunkSize);
    var y :| baseSize <= y < Min(lo + chunkSize, finalSize) && Covers(dirty, y);
    DirtyPlanned(planned, dirty, baseSize, chunkSize, y);
    var k :| 0 <= k < |planned| && InRange(planned[k], y);
    assert lo < planned[k].end && planned[k].start < Min(lo + chunkSize, finalSize);
    if Covers(planned, x) {
      PlannedClean(dirty, baseSize, chunkSize, x);
      var d :| 0 <= d < baseSize && d / chunkSize == x / chunkSize && Covers(dirty, d);
      FloorBounds(d, chunkSize);
      assert false;
    }
  }

  lemma DirtyPlanned(planned: seq<ByteRange>, dirty: seq<ByteRange>, baseSize: nat, chunkSize: nat, x: int)
    requires chunkSize > 0 && IsPlan(planned, dirty, baseSize, chunkSize) && Covers(dirty, x)
    ensures Covers(planned, x)
  {
    var k :| 0 <= k < |dirty| && InRange(dirty[k], x);
    assert InRange(PlanOf(dirty[k], baseSize, chunkSize), x);
  }

  lemma PlannedTouched(planned: seq<ByteRange>, finalSize: nat, chunkSize: nat, x: nat)
    requires chunkSize > 0 && x < finalSize && Covers(planned, x)
    ensures SegmentTouched(x, finalSize, chunkSize, planned)
  {
    FloorBounds(x, chunkSize);
    var k :| 0 <= k < |planned| && InRange(planned[k], x);
    assert x / chunkSize * chunkSize < planned[k].end && planned[k].start < Min(x / chunkSize * chunkSize + chunkSize, finalSize);
  }

  lemma PlannedNonNegative(planned: seq<ByteRange>, dirty: seq<ByteRange>, baseSize: nat, chunkSize: nat)
    requires chunkSize > 0 && IsPlan(planned, dirty, baseSize, chunkSize)
    ensures forall k :: 0 <= k < |planned| ==> 0 <= planned[k].start
  {
    forall k | 0 <= k < |planned| ensures 0 <= planned[k].start {
      assert InRange(planned[k], planned[k].start) && Covers(planned, planned[k].start);
    }
  }

  /** When everything past the old end is dirty, the family has a simple description: the file
      grew, its old end was inside a chunk, and nothing in the old part of that chunk is dirty. */
  lemma TailLostWhen(dirty: seq<ByteRange>, baseSize: nat, finalSize: nat, chunkSize: nat)
    requires chunkSize > 0
    requires forall x :: baseSize <= x < finalSize ==> Covers(dirty, x)
    ensures TailLost(dirty, baseSize, finalSize, chunkSize) <==>
      && baseSize < finalSize && baseSize % chunkSize != 0
      && forall x :: baseSize / chunkSize * chunkSize <= x < baseSize ==> !Covers(dirty, x)
  {
    FloorBounds(baseSize, chunkSize);
    assert baseSize == baseSize / chunkSize * chunkSize + baseSize % chunkSize;
    if baseSize < finalSize && baseSize % chunkSize != 0 {
      assert baseSize < Min(baseSize / chunkSize * chunkSize + chunkSize, finalSize) && Covers(dirty, baseSize);
    }
  }
}
