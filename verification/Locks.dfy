/** The advisory lock table of one inode. The record list is filtered inside its own backing
    array, so what a later turn reads may already have been overwritten. */
module Locks {
  import opened Errnos
  import opened Options

  const INFINITY := 0xFFFF_FFFF_FFFF_FFFF
  type Offset = x: int | 0 <= x <= INFINITY witness 0

  datatype LockType = Read | Write | Unlock

  /** `end` is exclusive; an `end` of 0 stands for infinity. */
  datatype FileLock = FileLock(start: Offset, end: Offset, typ: LockType)

  datatype LockRecord = LockRecord(owner: nat, lock: FileLock)

  function EndOf(a: FileLock): Offset {
    if a.end == 0 then INFINITY else a.end
  }

  predicate Has(a: FileLock, x: int) {
    a.start <= x < EndOf(a)
  }

  predicate LocksOverlap(a: FileLock, b: FileLock) {
    a.start < EndOf(b) && b.start < EndOf(a)
  }

  predicate LockConflicts(existing: LockRecord, owner: nat, requested: FileLock) {
    && requested.typ != Unlock && existing.owner != owner && LocksOverlap(existing.lock, requested)
    && !(existing.lock.typ == Read && requested.typ == Read)
  }

  function SubtractLock(existing: FileLock, cut: FileLock): (segments: seq<FileLock>)
    ensures |segments| <= 2
  {
    if !LocksOverlap(existing, cut) then [existing]
    else
      (if cut.start > existing.start then [existing.(end := cut.start)] else [])
        + (if EndOf(cut) < EndOf(existing) then [existing.(start := EndOf(cut))] else [])
  }

  ghost predicate AnyHas(segments: seq<FileLock>, x: int) {
    exists k :: 0 <= k < |segments| && Has(segments[k], x)
  }

  /** What is left of a lock, in no, one or two pieces of its type, is exactly its bytes outside
      the cut. */
  lemma SubtractLockExact(existing: FileLock, cut: FileLock, x: int)
    ensures AnyHas(SubtractLock(existing, cut), x) <==> Has(existing, x) && !Has(cut, x)
    ensures forall k :: 0 <= k < |SubtractLock(existing, cut)| ==> IsPiece(SubtractLock(existing, cut)[k], existing)
  {
    var segments := SubtractLock(existing, cut);
    if Has(existing, x) && !Has(cut, x) {
      if LocksOverlap(existing, cut) && x >= cut.start {
        assert Has(segments[|segments| - 1], x);
      } else {
        assert Has(segments[0], x);
      }
    }
  }

  predicate IsPiece(p: FileLock, whole: FileLock) {
    p.typ == whole.typ && whole.start <= p.start && EndOf(p) <= EndOf(whole)
  }

  // ----- one turn of the filter

  /** What a record becomes: others' records stay, the owner's lose the cut. */
  function Segments(r: LockRecord, owner: nat, cut: FileLock): (out: seq<LockRecord>)
    ensures |out| <= 2
  {
    if r.owner != owner then [r]
    else
      var s := SubtractLock(r.lock, cut);
      if s == [] then []
      else if |s| == 1 then [LockRecord(r.owner, s[0])]
      else [LockRecord(r.owner, s[0]), LockRecord(r.owner, s[1])]
  }

  /** The filter on a list of its own. */
  function Filtered(locks: seq<LockRecord>, owner: nat, cut: FileLock): seq<LockRecord> {
    if locks == [] then []
    else Filtered(locks[..|locks| - 1], owner, cut) + Segments(locks[|locks| - 1], owner, cut)
  }

  /** Writing `out` at position `w`, growing the buffer when it runs past the end. */
  function Store(buf: seq<LockRecord>, w: nat, out: seq<LockRecord>): (r: seq<LockRecord>)
    requires w <= |buf|
    ensures |r| == if w + |out| <= |buf| then |buf| else w + |out|
  {
    if w + |out| <= |buf| then buf[..w] + out + buf[w + |out|..] else buf[..w] + out
  }

  /** The buffer after some turns of the filter inside it, and how much of it is written. */
  datatype Sweep = Sweep(buf: seq<LockRecord>, written: nat)

  function SweepAfter(locks: seq<LockRecord>, i: nat, owner: nat, cut: FileLock): (s: Sweep)
    requires i <= |locks|
    ensures s.written <= |s.buf| && |locks| <= |s.buf|
  {
    if i == 0 then Sweep(locks, 0)
    else NextSweep(SweepAfter(locks, i - 1, owner, cut), i - 1, owner, cut)
  }

  /** Record `i` is read from the buffer as the earlier turns left it. */
  function NextSweep(s: Sweep, i: nat, owner: nat, cut: FileLock): (r: Sweep)
    requires i < |s.buf| && s.written <= |s.buf|
    ensures r.written <= |r.buf| && |s.buf| <= |r.buf|
  {
    var out := Segments(s.buf[i], owner, cut);
    Sweep(Store(s.buf, s.written, out), s.written + |out|)
  }

  function Shared(locks: seq<LockRecord>, owner: nat, cut: FileLock): seq<LockRecord> {
    var s := SweepAfter(locks, |locks|, owner, cut);
    s.buf[..s.written]
  }

  /** The whole operation: an unlock filters; a lock is refused on conflict, otherwise filters
      and joins the list. */
  function AfterSetLock(locks: seq<LockRecord>, owner: nat, lk: FileLock): (Errno, seq<LockRecord>) {
    if lk.typ == Unlock then (OK, Shared(locks, owner, lk))
    else if exists i :: 0 <= i < |locks| && LockConflicts(locks[i], owner, lk) then (EAGAIN, locks)
    else (OK, Shared(locks, owner, lk) + [LockRecord(owner, lk)])
  }

  // ----- the code

  /** The lock records of one inode: a slice over a backing array. */
  class LockList {
    var data: array<LockRecord>
    var len: nat

    constructor ()
      ensures Valid() && fresh(data) && Contents() == []
    {
      data, len := new LockRecord[0], 0;
    }

    ghost predicate Valid()
      reads this
    {
      len <= data.Length
    }

    ghost function Contents(): seq<LockRecord>
      requires Valid()
      reads this, data
    {
      data[..len]
    }

    method SetLock(owner: nat, lk: FileLock) returns (errno: Errno)
      requires Valid()
      modifies this, data
      ensures Valid() && (data == old(data) || fresh(data))
      ensures (errno, Contents()) == AfterSetLock(old(Contents()), owner, lk)
    {
      if lk.typ == Unlock {
        FilterInPlace(owner, lk);
        return OK;
      }
      for i := 0 to len
        invariant data == old(data) && len == old(len) && data[..len] == old(data[..len])
        invariant forall k :: 0 <= k < i ==> !LockConflicts(data[k], owner, lk)
      {
        if LockConflicts(data[i], owner, lk) {
          assert LockConflicts(Contents()[i], owner, lk);
          return EAGAIN;
        }
      }
      FilterInPlace(owner, lk);
      data := Append(data, len, LockRecord(owner, lk));
      len := len + 1;
      errno := OK;
    }

    method FilterInPlace(owner: nat, cut: FileLock)
      requires Valid()
      modifies this, data
      ensures Valid() && (data == old(data) || fresh(data))
      ensures Contents() == Shared(old(Contents()), owner, cut)
    {
      data, len := FilterLocks(data, len, owner, cut);
    }
  }

  /** The filter over a slice: reads records from the array it writes to. */
  method FilterLocks(locks: array<LockRecord>, n: nat, owner: nat, cut: FileLock) returns (out: array<LockRecord>, w: nat)
    requires n <= locks.Length
    modifies locks
    ensures w <= out.Length && (out == locks || fresh(out))
    ensures out[..w] == Shared(old(locks[..n]), owner, cut)
  {
    out, w := locks, 0;
    ghost var was := locks[..n];
    ghost var s := Sweep(was, 0);
    for i := 0 to n
      invariant out == locks || fresh(out)
      invariant Walking(locks, n, i, out, w, s)
      invariant s == SweepAfter(was, i, owner, cut)
    {
      out, w := Turn(locks, n, i, out, w, owner, cut, s);
      s := NextSweep(s, i, owner, cut);
    }
  }

  /** The written records and the unread ones are those of the sweep. */
  ghost predicate Walking(locks: array<LockRecord>, n: nat, i: nat, out: array<LockRecord>, w: nat, s: Sweep)
    reads locks, out
  {
    && i <= n <= locks.Length && n <= |s.buf| && w <= out.Length && w == s.written <= |s.buf|
    && out[..w] == s.buf[..w] && (out != locks ==> n <= w)
    && forall j :: i <= j < n ==> locks[j] == s.buf[j]
  }

  /** One record's turn. */
  method Turn(locks: array<LockRecord>, n: nat, i: nat, out: array<LockRecord>, w: nat, owner: nat, cut: FileLock, ghost s: Sweep)
      returns (now: array<LockRecord>, next: nat)
    requires i < n && Walking(locks, n, i, out, w, s)
    modifies out
    ensures now == out || fresh(now)
    ensures Walking(locks, n, i + 1, now, next, NextSweep(s, i, owner, cut))
  {
    var segments := Segments(locks[i], owner, cut);
    now := AppendAll(out, w, segments);
    next := w + |segments|;
    StoreKeeps(s.buf, w, segments);
  }

  lemma StoreWritten(buf: seq<LockRecord>, w: nat, out: seq<LockRecord>)
    requires w <= |buf|
    ensures Store(buf, w, out)[..w + |out|] == buf[..w] + out
  {
  }

  lemma StoreAt(buf: seq<LockRecord>, w: nat, out: seq<LockRecord>, j: nat)
    requires w <= |buf| && j < |Store(buf, w, out)|
    ensures Store(buf, w, out)[j] == if w <= j < w + |out| then out[j - w] else buf[j]
  {
  }

  lemma StoreKeeps(buf: seq<LockRecord>, w: nat, out: seq<LockRecord>)
    requires w <= |buf|
    ensures Store(buf, w, out)[..w + |out|] == buf[..w] + out
    ensures forall j :: 0 <= j < |Store(buf, w, out)| ==>
      Store(buf, w, out)[j] == if w <= j < w + |out| then out[j - w] else buf[j]
  {
    StoreWritten(buf, w, out);
    forall j | 0 <= j < |Store(buf, w, out)|
      ensures Store(buf, w, out)[j] == if w <= j < w + |out| then out[j - w] else buf[j]
    {
      StoreAt(buf, w, out, j);
    }
  }

  /** Appends one by one: in place while the array has room, into a larger copy otherwise. */
  method AppendAll(a: array<LockRecord>, w: nat, segments: seq<LockRecord>) returns (out: array<LockRecord>)
    requires w <= a.Length
    modifies a
    ensures w + |segments| <= out.Length && out[..w + |segments|] == old(a[..w]) + segments
    ensures out == a || (fresh(out) && w + |segments| > a.Length)
    ensures forall j :: 0 <= j < a.Length ==> a[j] == if w <= j < w + |segments| then segments[j - w] else old(a[j])
  {
    out := a;
    for k := 0 to |segments|
      invariant w + k <= out.Length && out[..w + k] == old(a[..w]) + segments[..k]
      invariant out == a || (fresh(out) && w + k > a.Length)
      invariant forall j :: 0 <= j < a.Length ==> a[j] == if w <= j < w + k then segments[j - w] else old(a[j])
    {
      out := Append(out, w + k, segments[k]);
    }
  }

  method Append(a: array<LockRecord>, w: nat, r: LockRecord) returns (out: array<LockRecord>)
    requires w <= a.Length
    modifies a
    ensures w < out.Length && out[..w + 1] == old(a[..w]) + [r]
    ensures if w < a.Length then out == a else fresh(out)
    ensures forall j :: 0 <= j < a.Length ==> a[j] == if j == w then r else old(a[j])
  {
    out := a;
    if w == a.Length {
      out := new LockRecord[2 * w + 1](_ => r);
      for j := 0 to w
        invariant forall k :: 0 <= k < j ==> out[k] == a[k]
        invariant a[..] == old(a[..])
      {
        out[j] := a[j];
      }
    }
    out[w] := r;
  }

  // ----- exclusion, whatever the sharing does

  predicate IsPieceOf(p: LockRecord, r: LockRecord) {
    p.owner == r.owner && IsPiece(p.lock, r.lock)
  }

  ghost predicate PieceOfSome(p: LockRecord, locks: seq<LockRecord>) {
    exists k :: 0 <= k < |locks| && IsPieceOf(p, locks[k])
  }

  lemma SegmentsArePieces(r: LockRecord, owner: nat, cut: FileLock)
    ensures forall k :: 0 <= k < |Segments(r, owner, cut)| ==> IsPieceOf(Segments(r, owner, cut)[k], r)
  {
  }

  lemma PieceTransitive(p: LockRecord, q: LockRecord, locks: seq<LockRecord>)
    requires IsPieceOf(p, q) && PieceOfSome(q, locks)
    ensures PieceOfSome(p, locks)
  {
    var k :| 0 <= k < |locks| && IsPieceOf(q, locks[k]);
    assert IsPieceOf(p, locks[k]);
  }

  ghost predicate AllPieces(buf: seq<LockRecord>, locks: seq<LockRecord>) {
    forall j :: 0 <= j < |buf| ==> PieceOfSome(buf[j], locks)
  }

  lemma OwnPieces(locks: seq<LockRecord>)
    ensures AllPieces(locks, locks)
  {
    forall j | 0 <= j < |locks| ensures PieceOfSome(locks[j], locks) {
      assert IsPieceOf(locks[j], locks[j]);
    }
  }

  /** At every turn, everything in the buffer is a piece of a record of the list. */
  lemma {:induction false} SweepHoldsPieces(locks: seq<LockRecord>, i: nat, owner: nat, cut: FileLock, s: Sweep)
    requires i <= |locks| && s == SweepAfter(locks, i, owner, cut)
    ensures AllPieces(s.buf, locks)
    decreases i
  {
    if i == 0 {
      OwnPieces(locks);
    } else {
      var before := SweepAfter(locks, i - 1, owner, cut);
      SweepHoldsPieces(locks, i - 1, owner, cut, before);
      SweepTurn(locks, i - 1, owner, cut);
      NextHoldsPieces(locks, before, i - 1, owner, cut, s);
    }
  }

  lemma SweepTurn(locks: seq<LockRecord>, i: nat, owner: nat, cut: FileLock)
    requires i < |locks|
    ensures SweepAfter(locks, i + 1, owner, cut) == NextSweep(SweepAfter(locks, i, owner, cut), i, owner, cut)
  {
  }

  lemma NextHoldsPieces(locks: seq<LockRecord>, s: Sweep, i: nat, owner: nat, cut: FileLock, next: Sweep)
    requires i < |s.buf| && s.written <= |s.buf| && AllPieces(s.buf, locks) && next == NextSweep(s, i, owner, cut)
    ensures AllPieces(next.buf, locks)
  {
    var out := Segments(s.buf[i], owner, cut);
    SegmentsArePieces(s.buf[i], owner, cut);
    forall k | 0 <= k < |out| ensures PieceOfSome(out[k], locks) {
      PieceTransitive(out[k], s.buf[i], locks);
    }
    StoreKeepsPieces(s.buf, s.written, out, locks);
  }

  lemma StoreKeepsPieces(buf: seq<LockRecord>, w: nat, out: seq<LockRecord>, locks: seq<LockRecord>)
    requires w <= |buf| && AllPieces(buf, locks) && AllPieces(out, locks)
    ensures AllPieces(Store(buf, w, out), locks)
  {
    var r := Store(buf, w, out);
    StoreKeeps(buf, w, out);
    forall j | 0 <= j < |r| ensures PieceOfSome(r[j], locks) {
      assert r[j] == if w <= j < w + |out| then out[j - w] else buf[j];
    }
  }

  predicate Compatible(a: LockRecord, b: LockRecord) {
    a.owner == b.owner || !LocksOverlap(a.lock, b.lock) || (a.lock.typ == Read && b.lock.typ == Read)
  }

  /** No two owners hold overlapping records unless both are read locks. */
  predicate Exclusive(locks: seq<LockRecord>) {
    forall i, j :: 0 <= i < |locks| && 0 <= j < |locks| ==> Compatible(locks[i], locks[j])
  }

  lemma PiecesCompatible(p: LockRecord, q: LockRecord, locks: seq<LockRecord>)
    requires PieceOfSome(p, locks) && PieceOfSome(q, locks) && Exclusive(locks)
    ensures Compatible(p, q)
  {
    var i :| 0 <= i < |locks| && IsPieceOf(p, locks[i]);
    var j :| 0 <= j < |locks| && IsPieceOf(q, locks[j]);
    assert Compatible(locks[i], locks[j]);
  }

  lemma SharedHoldsPieces(locks: seq<LockRecord>, owner: nat, cut: FileLock)
    ensures AllPieces(Shared(locks, owner, cut), locks)
  {
    SweepHoldsPieces(locks, |locks|, owner, cut, SweepAfter(locks, |locks|, owner, cut));
  }

  lemma PieceOfCompatible(p: LockRecord, locks: seq<LockRecord>, owner: nat, lk: FileLock)
    requires PieceOfSome(p, locks) && lk.typ != Unlock && forall i :: 0 <= i < |locks| ==> !LockConflicts(locks[i], owner, lk)
    ensures Compatible(p, LockRecord(owner, lk)) && Compatible(LockRecord(owner, lk), p)
  {
    var i :| 0 <= i < |locks| && IsPieceOf(p, locks[i]);
    assert !LockConflicts(locks[i], owner, lk);
  }

  /** Exclusion survives every operation, damaged lists included. */
  lemma ExclusionKept(locks: seq<LockRecord>, owner: nat, lk: FileLock)
    requires Exclusive(locks)
    ensures Exclusive(AfterSetLock(locks, owner, lk).1)
  {
    var (errno, after) := AfterSetLock(locks, owner, lk);
    if errno == OK {
      var kept := Shared(locks, owner, lk);
      SharedHoldsPieces(locks, owner, lk);
      forall i, j | 0 <= i < |after| && 0 <= j < |after| ensures Compatible(after[i], after[j]) {
        if i < |kept| && j < |kept| {
          PiecesCompatible(kept[i], kept[j], locks);
        } else if i < |kept| {
          PieceOfCompatible(kept[i], locks, owner, lk);
        } else if j < |kept| {
          PieceOfCompatible(kept[j], locks, owner, lk);
        }
      }
    }
  }

  // ----- exactly when the sharing does no harm

  /** The cut lies strictly inside the record, which the filter must write as two. */
  predicate Splits(r: LockRecord, owner: nat, cut: FileLock) {
    r.owner == owner && LocksOverlap(r.lock, cut) && cut.start > r.lock.start && EndOf(cut) < EndOf(r.lock)
  }

  /** Only the last record may be split. */
  predicate NoInnerSplit(locks: seq<LockRecord>, owner: nat, cut: FileLock) {
    forall i :: 0 <= i < |locks| - 1 ==> !Splits(locks[i], owner, cut)
  }

  /** The writes are behind the reads: what is unread is untouched. */
  predicate Behind(locks: seq<LockRecord>, i: nat, s: Sweep, owner: nat, cut: FileLock)
    requires i <= |locks|
  {
    && s.written <= i && |s.buf| == |locks| && s.buf[..s.written] == Filtered(locks[..i], owner, cut)
    && forall j :: i <= j < |locks| ==> s.buf[j] == locks[j]
  }

  lemma {:induction false} SweepBehind(locks: seq<LockRecord>, i: nat, owner: nat, cut: FileLock)
    requires i <= |locks| && forall k :: 0 <= k < i ==> !Splits(locks[k], owner, cut)
    ensures Behind(locks, i, SweepAfter(locks, i, owner, cut), owner, cut)
  {
    if i == 0 {
      assert locks[..0] == [];
    } else {
      SweepBehind(locks, i - 1, owner, cut);
      StepBehind(locks, i - 1, SweepAfter(locks, i - 1, owner, cut), owner, cut);
    }
  }

  lemma StepBehind(locks: seq<LockRecord>, i: nat, s: Sweep, owner: nat, cut: FileLock)
    requires i < |locks| && Behind(locks, i, s, owner, cut)
    ensures NextSweep(s, i, owner, cut).buf[..NextSweep(s, i, owner, cut).written] == Filtered(locks[..i + 1], owner, cut)
    ensures !Splits(locks[i], owner, cut) ==> Behind(locks, i + 1, NextSweep(s, i, owner, cut), owner, cut)
  {
    var out := Segments(locks[i], owner, cut);
    StoreKeeps(s.buf, s.written, out);
    FilteredNext(locks, i, owner, cut);
  }

  lemma FilteredNext(locks: seq<LockRecord>, i: nat, owner: nat, cut: FileLock)
    requires i < |locks|
    ensures Filtered(locks[..i + 1], owner, cut) == Filtered(locks[..i], owner, cut) + Segments(locks[i], owner, cut)
  {
    assert locks[..i + 1][..i] == locks[..i];
  }

  /** Without an inner split the list is filtered as if it had a buffer of its own. */
  lemma SharedIsFiltered(locks: seq<LockRecord>, owner: nat, cut: FileLock)
    requires NoInnerSplit(locks, owner, cut)
    ensures Shared(locks, owner, cut) == Filtered(locks, owner, cut)
  {
    var n := |locks|;
    if n > 0 {
      SweepBehind(locks, n - 1, owner, cut);
      StepBehind(locks, n - 1, SweepAfter(locks, n - 1, owner, cut), owner, cut);
      assert locks[..n] == locks;
    }
  }

  /** An owner's records do not overlap each other. */
  predicate OwnDisjoint(locks: seq<LockRecord>) {
    forall i, j :: 0 <= i < j < |locks| ==> Apart(locks[i], locks[j])
  }

  predicate Apart(a: LockRecord, b: LockRecord) {
    a.owner == b.owner ==> !LocksOverlap(a.lock, b.lock)
  }

  function LeftOf(r: LockRecord, cut: FileLock): LockRecord {
    r.(lock := r.lock.(end := cut.start))
  }

  function RightOf(r: LockRecord, cut: FileLock): LockRecord {
    r.(lock := r.lock.(start := EndOf(cut)))
  }

  /** A split record's neighbours are not cut at all. */
  lemma OthersWhole(locks: seq<LockRecord>, i: nat, k: nat, owner: nat, cut: FileLock)
    requires i < |locks| && k < |locks| && i != k && OwnDisjoint(locks) && Splits(locks[i], owner, cut)
    ensures Segments(locks[k], owner, cut) == [locks[k]]
  {
    if i < k {
      assert Apart(locks[i], locks[k]);
    } else {
      assert Apart(locks[k], locks[i]);
    }
  }

  lemma SplitSegments(r: LockRecord, owner: nat, cut: FileLock)
    requires Splits(r, owner, cut)
    ensures Segments(r, owner, cut) == [LeftOf(r, cut), RightOf(r, cut)]
    ensures Segments(RightOf(r, cut), owner, cut) == [RightOf(r, cut)]
  {
  }

  function Repeat(r: LockRecord, n: nat): (s: seq<LockRecord>)
    ensures |s| == n && forall k :: 0 <= k < n ==> s[k] == r
  {
    if n == 0 then [] else Repeat(r, n - 1) + [r]
  }

  function Damaged(locks: seq<LockRecord>, i: nat, cut: FileLock, n: nat): seq<LockRecord>
    requires i < |locks|
  {
    locks[..i] + [LeftOf(locks[i], cut)] + Repeat(RightOf(locks[i], cut), n)
  }

  predicate IsDamaged(s: Sweep, locks: seq<LockRecord>, i: nat, j: nat, cut: FileLock)
    requires i < |locks| && i < j
  {
    s.written == j + 1 <= |s.buf| && s.buf[..j + 1] == Damaged(locks, i, cut, j - i)
  }

  lemma SplitTurn(locks: seq<LockRecord>, i: nat, s: Sweep, owner: nat, cut: FileLock)
    requires i < |locks| && Splits(locks[i], owner, cut) && Behind(locks, i, s, owner, cut)
    requires Filtered(locks[..i], owner, cut) == locks[..i]
    ensures IsDamaged(NextSweep(s, i, owner, cut), locks, i, i + 1, cut)
  {
    SplitSegments(locks[i], owner, cut);
    assert s.written == i;
    StoreKeeps(s.buf, i, Segments(locks[i], owner, cut));
    assert Repeat(RightOf(locks[i], cut), 1) == [RightOf(locks[i], cut)];
  }

  lemma SweepToSplit(locks: seq<LockRecord>, i: nat, owner: nat, cut: FileLock)
    requires i < |locks| && OwnDisjoint(locks) && Splits(locks[i], owner, cut)
    ensures Behind(locks, i, SweepAfter(locks, i, owner, cut), owner, cut) && Filtered(locks[..i], owner, cut) == locks[..i]
  {
    forall k | 0 <= k < i ensures Segments(locks[k], owner, cut) == [locks[k]] && !Splits(locks[k], owner, cut) {
      OthersWhole(locks, i, k, owner, cut);
    }
    SweepBehind(locks, i, owner, cut);
    UncutStays(locks[..i], owner, cut);
  }

  /** After an inner split every turn reads the right piece just written over its record. */
  lemma {:induction false} SweepDamaged(locks: seq<LockRecord>, i: nat, j: nat, owner: nat, cut: FileLock)
    requires i < |locks| - 1 && i < j <= |locks| && OwnDisjoint(locks) && Splits(locks[i], owner, cut)
    ensures IsDamaged(SweepAfter(locks, j, owner, cut), locks, i, j, cut)
  {
    if j == i + 1 {
      SweepSplit(locks, i, owner, cut);
    } else {
      var before := SweepAfter(locks, j - 1, owner, cut);
      SweepDamaged(locks, i, j - 1, owner, cut);
      DamagedTurn(locks, i, j - 1, before, owner, cut);
      assert SweepAfter(locks, j, owner, cut) == NextSweep(before, j - 1, owner, cut);
    }
  }

  lemma SweepSplit(locks: seq<LockRecord>, i: nat, owner: nat, cut: FileLock)
    requires i < |locks| && OwnDisjoint(locks) && Splits(locks[i], owner, cut)
    ensures IsDamaged(SweepAfter(locks, i + 1, owner, cut), locks, i, i + 1, cut)
  {
    SweepToSplit(locks, i, owner, cut);
    SplitTurn(locks, i, SweepAfter(locks, i, owner, cut), owner, cut);
  }

  lemma DamagedTurn(locks: seq<LockRecord>, i: nat, j: nat, s: Sweep, owner: nat, cut: FileLock)
    requires i < j < |locks| && Splits(locks[i], owner, cut) && IsDamaged(s, locks, i, j, cut)
    ensures IsDamaged(NextSweep(s, j, owner, cut), locks, i, j + 1, cut)
  {
    var right := RightOf(locks[i], cut);
    assert s.buf[j] == s.buf[..j + 1][j] == right;
    SplitSegments(locks[i], owner, cut);
    StoreKeeps(s.buf, j + 1, [right]);
    assert Repeat(right, j + 1 - i) == Repeat(right, j - i) + [right];
  }

  /** An inner split loses every later record, others' included: the owner's right piece stands
      in the place of each. */
  lemma InnerSplitDamages(locks: seq<LockRecord>, i: nat, owner: nat, cut: FileLock)
    requires i < |locks| - 1 && OwnDisjoint(locks) && Splits(locks[i], owner, cut)
    ensures Shared(locks, owner, cut) == locks[..i] + [LeftOf(locks[i], cut)] + Repeat(RightOf(locks[i], cut), |locks| - i)
    ensures Shared(locks, owner, cut) != Filtered(locks, owner, cut)
  {
    var n := |locks|;
    SweepDamaged(locks, i, n, owner, cut);
    FilteredAround(locks, i, owner, cut);
    assert Shared(locks, owner, cut)[i + 2] == RightOf(locks[i], cut);
    assert Filtered(locks, owner, cut)[i + 2] == locks[i + 1];
    assert Apart(locks[i], locks[i + 1]);
  }

  lemma FilteredAround(locks: seq<LockRecord>, i: nat, owner: nat, cut: FileLock)
    requires i < |locks| && OwnDisjoint(locks) && Splits(locks[i], owner, cut)
    ensures Filtered(locks, owner, cut) == locks[..i] + [LeftOf(locks[i], cut), RightOf(locks[i], cut)] + locks[i + 1..]
  {
    forall k | 0 <= k < |locks| && k != i ensures Segments(locks[k], owner, cut) == [locks[k]] {
      OthersWhole(locks, i, k, owner, cut);
    }
    SplitSegments(locks[i], owner, cut);
    SplitAt(locks, i);
    FilteredParts(locks[..i], locks[i], locks[i + 1..], owner, cut);
  }

  lemma SplitAt(locks: seq<LockRecord>, i: nat)
    requires i < |locks|
    ensures locks == (locks[..i] + [locks[i]]) + locks[i + 1..]
  {
  }

  lemma FilteredParts(before: seq<LockRecord>, r: LockRecord, after: seq<LockRecord>, owner: nat, cut: FileLock)
    requires forall k :: 0 <= k < |before| ==> Segments(before[k], owner, cut) == [before[k]]
    requires forall k :: 0 <= k < |after| ==> Segments(after[k], owner, cut) == [after[k]]
    ensures Filtered((before + [r]) + after, owner, cut) == before + Segments(r, owner, cut) + after
  {
    UncutStays(before, owner, cut);
    UncutStays(after, owner, cut);
    FilteredLast(before, r, owner, cut);
    FilteredConcat(before + [r], after, owner, cut);
  }

  lemma FilteredLast(init: seq<LockRecord>, last: LockRecord, owner: nat, cut: FileLock)
    ensures Filtered(init + [last], owner, cut) == Filtered(init, owner, cut) + Segments(last, owner, cut)
  {
    assert (init + [last])[..|init|] == init;
  }

  lemma Assoc(a: seq<LockRecord>, b: seq<LockRecord>, c: seq<LockRecord>)
    ensures (a + b) + c == a + (b + c)
  {
  }

  lemma {:induction false} FilteredConcat(a: seq<LockRecord>, b: seq<LockRecord>, owner: nat, cut: FileLock)
    ensures Filtered(a + b, owner, cut) == Filtered(a, owner, cut) + Filtered(b, owner, cut)
    decreases |b|
  {
    if b == [] {
      NothingAfter(a);
      NothingAfter(Filtered(a, owner, cut));
    } else {
      var init, last := b[..|b| - 1], b[|b| - 1];
      FilteredConcat(a, init, owner, cut);
      FilteredLast(init, last, owner, cut);
      FilteredLast(a + init, last, owner, cut);
      TakeLast(b);
      Assoc(a, init, [last]);
      Assoc(Filtered(a, owner, cut), Filtered(init, owner, cut), Segments(last, owner, cut));
    }
  }

  lemma NothingAfter(a: seq<LockRecord>)
    ensures a + [] == a
  {
  }

  lemma TakeLast(s: seq<LockRecord>)
    requires s != []
    ensures s == s[..|s| - 1] + [s[|s| - 1]]
  {
  }

  lemma {:induction false} UncutStays(s: seq<LockRecord>, owner: nat, cut: FileLock)
    requires forall k :: 0 <= k < |s| ==> Segments(s[k], owner, cut) == [s[k]]
    ensures Filtered(s, owner, cut) == s
    decreases |s|
  {
    if s != [] {
      UncutStays(s[..|s| - 1], owner, cut);
      TakeLast(s);
      FilteredLast(s[..|s| - 1], s[|s| - 1], owner, cut);
    }
  }

  /** The in-place filter is right exactly when no record but the last is split. */
  lemma SharedExactIff(locks: seq<LockRecord>, owner: nat, cut: FileLock)
    requires OwnDisjoint(locks)
    ensures Shared(locks, owner, cut) == Filtered(locks, owner, cut) <==> NoInnerSplit(locks, owner, cut)
  {
    if NoInnerSplit(locks, owner, cut) {
      SharedIsFiltered(locks, owner, cut);
    } else {
      var i :| 0 <= i < |locks| - 1 && Splits(locks[i], owner, cut);
      InnerSplitDamages(locks, i, owner, cut);
    }
  }

  // ----- the bytes each owner holds

  ghost predicate Holds(locks: seq<LockRecord>, owner: nat, typ: LockType, x: int) {
    exists i :: 0 <= i < |locks| && HoldsAt(locks[i], owner, typ, x)
  }

  predicate HoldsAt(r: LockRecord, owner: nat, typ: LockType, x: int) {
    r.owner == owner && r.lock.typ == typ && Has(r.lock, x)
  }

  lemma SegmentsHold(r: LockRecord, owner: nat, cut: FileLock, o: nat, typ: LockType, x: int)
    ensures Holds(Segments(r, owner, cut), o, typ, x) <==> HoldsAt(r, o, typ, x) && !(o == owner && Has(cut, x))
  {
    SubtractLockExact(r.lock, cut, x);
    var out := Segments(r, owner, cut);
    if r.owner != owner {
      assert out[0] == r;
    } else if AnyHas(SubtractLock(r.lock, cut), x) {
      var k :| 0 <= k < |SubtractLock(r.lock, cut)| && Has(SubtractLock(r.lock, cut)[k], x);
      assert out[k].lock == SubtractLock(r.lock, cut)[k];
    }
  }

  lemma HoldsConcat(a: seq<LockRecord>, b: seq<LockRecord>, o: nat, typ: LockType, x: int)
    ensures Holds(a + b, o, typ, x) <==> Holds(a, o, typ, x) || Holds(b, o, typ, x)
  {
    if i :| 0 <= i < |a| && HoldsAt(a[i], o, typ, x) {
      assert (a + b)[i] == a[i];
    }
    if i :| 0 <= i < |b| && HoldsAt(b[i], o, typ, x) {
      assert (a + b)[|a| + i] == b[i];
    }
  }

  lemma {:induction false} FilteredHolds(locks: seq<LockRecord>, owner: nat, cut: FileLock, o: nat, typ: LockType, x: int)
    ensures Holds(Filtered(locks, owner, cut), o, typ, x) <==> Holds(locks, o, typ, x) && !(o == owner && Has(cut, x))
    decreases |locks|
  {
    if locks != [] {
      var init, last := locks[..|locks| - 1], locks[|locks| - 1];
      FilteredHolds(init, owner, cut, o, typ, x);
      SegmentsHold(last, owner, cut, o, typ, x);
      HoldsConcat(Filtered(init, owner, cut), Segments(last, owner, cut), o, typ, x);
      HoldsConcat(init, [last], o, typ, x);
      assert locks == init + [last] && [last][0] == last;
    }
  }

  /** Every operation that goes through without an inner split changes exactly the requested bytes
      of the requesting owner, and nothing of any other owner. */
  lemma SetLockExact(locks: seq<LockRecord>, owner: nat, lk: FileLock, o: nat, typ: LockType, x: int)
    requires AfterSetLock(locks, owner, lk).0 == OK && NoInnerSplit(locks, owner, lk)
    ensures Holds(AfterSetLock(locks, owner, lk).1, o, typ, x) <==>
      if o == owner && Has(lk, x) then lk.typ != Unlock && typ == lk.typ else Holds(locks, o, typ, x)
  {
    SharedIsFiltered(locks, owner, lk);
    FilteredHolds(locks, owner, lk, o, typ, x);
    if lk.typ != Unlock {
      var mine := [LockRecord(owner, lk)];
      HoldsConcat(Filtered(locks, owner, lk), mine, o, typ, x);
      assert mine[0] == LockRecord(owner, lk);
    }
  }

  lemma PieceApart(p: LockRecord, r: LockRecord, q: LockRecord)
    requires IsPieceOf(p, r) && Apart(r, q)
    ensures Apart(p, q) && Apart(q, p)
  {
  }

  lemma {:induction false} FilteredApart(locks: seq<LockRecord>, owner: nat, cut: FileLock)
    requires OwnDisjoint(locks) && cut.start <= EndOf(cut)
    ensures OwnDisjoint(Filtered(locks, owner, cut)) && AllPieces(Filtered(locks, owner, cut), locks)
    ensures forall k :: 0 <= k < |Filtered(locks, owner, cut)| ==> Apart(Filtered(locks, owner, cut)[k], LockRecord(owner, cut))
    decreases |locks|
  {
    if locks != [] {
      var init, last := locks[..|locks| - 1], locks[|locks| - 1];
      FilteredApart(init, owner, cut);
      var a, b := Filtered(init, owner, cut), Segments(last, owner, cut);
      SegmentsArePieces(last, owner, cut);
      forall i | 0 <= i < |a| ensures PieceOfSome(a[i], locks) && forall j :: 0 <= j < |b| ==> Apart(a[i], b[j]) {
        var k :| 0 <= k < |init| && IsPieceOf(a[i], init[k]);
        assert locks[k] == init[k] && Apart(locks[k], last);
        PieceApart(a[i], init[k], last);
      }
      forall j | 0 <= j < |b| ensures PieceOfSome(b[j], locks) {
        assert IsPieceOf(b[j], locks[|locks| - 1]);
      }
    }
  }

  /** Between inner splits an owner's records stay apart. */
  lemma OwnDisjointKept(locks: seq<LockRecord>, owner: nat, lk: FileLock)
    requires OwnDisjoint(locks) && NoInnerSplit(locks, owner, lk) && lk.start <= EndOf(lk)
    ensures OwnDisjoint(AfterSetLock(locks, owner, lk).1)
  {
    SharedIsFiltered(locks, owner, lk);
    FilteredApart(locks, owner, lk);
  }

  /** Closing a handle unlocks the whole file for an owner; that never splits anything. */
  lemma ReleaseIsExact(locks: seq<LockRecord>, owner: nat, o: nat, typ: LockType, x: int)
    ensures var after := AfterSetLock(locks, owner, FileLock(0, 0, Unlock)).1;
      0 <= x < INFINITY ==> (Holds(after, o, typ, x) <==> o != owner && Holds(locks, o, typ, x))
  {
    SetLockExact(locks, owner, FileLock(0, 0, Unlock), o, typ, x);
  }

  // ----- when a request is granted

  /** The lock is on some byte. */
  predicate OnSomeByte(lk: FileLock) {
    lk.start < EndOf(lk)
  }

  predicate NoneEmpty(locks: seq<LockRecord>) {
    forall i :: 0 <= i < |locks| ==> OnSomeByte(locks[i].lock)
  }

  /** Somebody else holds the byte in a way the request cannot share: for writing, or for reading when
      the request is for writing. */
  ghost predicate Barred(locks: seq<LockRecord>, owner: nat, typ: LockType, x: int) {
    exists other :: other != owner && (Holds(locks, other, Write, x) || (typ == Write && Holds(locks, other, Read, x)))
  }

  lemma RefusedBars(locks: seq<LockRecord>, owner: nat, lk: FileLock, i: nat) returns (x: int)
    requires i < |locks| && LockConflicts(locks[i], owner, lk) && OnSomeByte(locks[i].lock) && OnSomeByte(lk)
    requires locks[i].lock.typ != Unlock
    ensures Has(lk, x) && Barred(locks, owner, lk.typ, x)
  {
    x := if lk.start < locks[i].lock.start then locks[i].lock.start else lk.start;
    assert HoldsAt(locks[i], locks[i].owner, locks[i].lock.typ, x);
    assert Holds(locks, locks[i].owner, locks[i].lock.typ, x);
  }

  lemma BarredRefuses(locks: seq<LockRecord>, owner: nat, lk: FileLock, x: int)
    requires lk.typ != Unlock && Has(lk, x) && Barred(locks, owner, lk.typ, x)
    ensures exists i :: 0 <= i < |locks| && LockConflicts(locks[i], owner, lk)
  {
    var other :| other != owner && (Holds(locks, other, Write, x) || (lk.typ == Write && Holds(locks, other, Read, x)));
    var typ := if Holds(locks, other, Write, x) then Write else Read;
    var i :| 0 <= i < |locks| && HoldsAt(locks[i], other, typ, x);
    assert LockConflicts(locks[i], owner, lk);
  }

  /** No record of the table is an unlock. */
  predicate OnlyLocks(locks: seq<LockRecord>) {
    forall i :: 0 <= i < |locks| ==> locks[i].lock.typ != Unlock
  }

  /** An unlock always succeeds. A lock is granted exactly when nobody else holds one of its bytes for
      writing, nor, if it is for writing, for reading. A refusal changes nothing. */
  lemma GrantedIff(locks: seq<LockRecord>, owner: nat, lk: FileLock)
    requires NoneEmpty(locks) && OnlyLocks(locks) && OnSomeByte(lk)
    ensures AfterSetLock(locks, owner, lk).0 == OK || AfterSetLock(locks, owner, lk) == (EAGAIN, locks)
    ensures AfterSetLock(locks, owner, lk).0 == OK <==>
      lk.typ == Unlock || forall x :: lk.start <= x < EndOf(lk) ==> !Barred(locks, owner, lk.typ, x)
  {
    if lk.typ != Unlock {
      if i :| 0 <= i < |locks| && LockConflicts(locks[i], owner, lk) {
        var x := RefusedBars(locks, owner, lk, i);
      } else {
        forall x | lk.start <= x < EndOf(lk) ensures !Barred(locks, owner, lk.typ, x) {
          if Barred(locks, owner, lk.typ, x) {
            BarredRefuses(locks, owner, lk, x);
          }
        }
      }
    }
  }

  /** What every operation keeps of a table that holds only locks on some byte. */
  predicate Tidy(locks: seq<LockRecord>) {
    NoneEmpty(locks) && OnlyLocks(locks)
  }

  lemma SegmentsTidy(r: LockRecord, owner: nat, cut: FileLock)
    requires OnSomeByte(r.lock) && r.lock.typ != Unlock
    ensures Tidy(Segments(r, owner, cut))
  {
  }

  lemma {:induction false} SweepTidy(locks: seq<LockRecord>, i: nat, owner: nat, cut: FileLock)
    requires i <= |locks| && Tidy(locks)
    ensures Tidy(SweepAfter(locks, i, owner, cut).buf)
  {
    if i > 0 {
      var before := SweepAfter(locks, i - 1, owner, cut);
      SweepTidy(locks, i - 1, owner, cut);
      SegmentsTidy(before.buf[i - 1], owner, cut);
      StoreTidy(before.buf, before.written, Segments(before.buf[i - 1], owner, cut));
      assert SweepAfter(locks, i, owner, cut) == NextSweep(before, i - 1, owner, cut);
    }
  }

  lemma StoreTidy(buf: seq<LockRecord>, w: nat, out: seq<LockRecord>)
    requires w <= |buf| && Tidy(buf) && Tidy(out)
    ensures Tidy(Store(buf, w, out))
  {
    StoreKeeps(buf, w, out);
  }

  lemma TidyKept(locks: seq<LockRecord>, owner: nat, lk: FileLock)
    requires Tidy(locks) && OnSomeByte(lk)
    ensures Tidy(AfterSetLock(locks, owner, lk).1)
  {
    SweepTidy(locks, |locks|, owner, lk);
  }

  // ----- every run of requests

  datatype Request = Request(owner: nat, lk: FileLock)

  /** The table after some requests, granted or refused, to a file nobody had locked. */
  function AfterRequests(reqs: seq<Request>): seq<LockRecord> {
    if reqs == [] then []
    else
      var r := reqs[|reqs| - 1];
      AfterSetLock(AfterRequests(reqs[..|reqs| - 1]), r.owner, r.lk).1
  }

  /** In every table that requests lead to, no two owners hold overlapping records unless both are
      read locks. */
  lemma {:induction false} ExclusionAlways(reqs: seq<Request>)
    ensures Exclusive(AfterRequests(reqs))
    decreases |reqs|
  {
    if reqs != [] {
      var r := reqs[|reqs| - 1];
      ExclusionAlways(reqs[..|reqs| - 1]);
      ExclusionKept(AfterRequests(reqs[..|reqs| - 1]), r.owner, r.lk);
    }
  }

  predicate AllOnSomeByte(reqs: seq<Request>) {
    forall i :: 0 <= i < |reqs| ==> OnSomeByte(reqs[i].lk)
  }

  lemma {:induction false} TablesTidy(reqs: seq<Request>)
    requires AllOnSomeByte(reqs)
    ensures Tidy(AfterRequests(reqs))
    decreases |reqs|
  {
    if reqs != [] {
      TablesTidy(reqs[..|reqs| - 1]);
      TidyKept(AfterRequests(reqs[..|reqs| - 1]), reqs[|reqs| - 1].owner, reqs[|reqs| - 1].lk);
    }
  }

  /** The rule of grants holds in every table that requests lead to. */
  lemma GrantsAlways(reqs: seq<Request>, owner: nat, lk: FileLock)
    requires AllOnSomeByte(reqs) && OnSomeByte(lk)
    ensures AfterSetLock(AfterRequests(reqs), owner, lk).0 == OK <==>
      lk.typ == Unlock || forall x :: lk.start <= x < EndOf(lk) ==> !Barred(AfterRequests(reqs), owner, lk.typ, x)
  {
    TablesTidy(reqs);
    GrantedIff(AfterRequests(reqs), owner, lk);
  }

  /** What an owner was last granted at an offset, if it has not given it up since. */
  function LastGranted(reqs: seq<Request>, owner: nat, x: int): Option<LockType> {
    if reqs == [] then None
    else
      var init, r := reqs[..|reqs| - 1], reqs[|reqs| - 1];
      if AfterSetLock(AfterRequests(init), r.owner, r.lk).0 == OK && r.owner == owner && Has(r.lk, x) then
        (if r.lk.typ == Unlock then None else Some(r.lk.typ))
      else LastGranted(init, owner, x)
  }

  /** No request on the way split a record before the last. */
  predicate NeverSplitsInside(reqs: seq<Request>) {
    reqs != [] ==>
      var init, r := reqs[..|reqs| - 1], reqs[|reqs| - 1];
      NeverSplitsInside(init) && NoInnerSplit(AfterRequests(init), r.owner, r.lk)
  }

  /** Such a run holds, for each owner and each byte, exactly what the owner was last granted there. */
  lemma {:induction false} RunExact(reqs: seq<Request>, owner: nat, typ: LockType, x: int)
    requires NeverSplitsInside(reqs) && typ != Unlock
    ensures Holds(AfterRequests(reqs), owner, typ, x) <==> LastGranted(reqs, owner, x) == Some(typ)
    decreases |reqs|
  {
    if reqs != [] {
      var init, r := reqs[..|reqs| - 1], reqs[|reqs| - 1];
      RunExact(init, owner, typ, x);
      if AfterSetLock(AfterRequests(init), r.owner, r.lk).0 == OK {
        SetLockExact(AfterRequests(init), r.owner, r.lk, owner, typ, x);
      }
    }
  }

  /** What the requests are answered. */
  function Answers(reqs: seq<Request>): (answers: seq<Errno>)
    ensures |answers| == |reqs|
  {
    if reqs == [] then []
    else
      var init, r := reqs[..|reqs| - 1], reqs[|reqs| - 1];
      Answers(init) + [AfterSetLock(AfterRequests(init), r.owner, r.lk).0]
  }

  lemma RequestsNext(reqs: seq<Request>, n: nat)
    requires n < |reqs|
    ensures var (errno, after) := AfterSetLock(AfterRequests(reqs[..n]), reqs[n].owner, reqs[n].lk);
      AfterRequests(reqs[..n + 1]) == after && Answers(reqs[..n + 1]) == Answers(reqs[..n]) + [errno]
  {
    assert reqs[..n + 1][..n] == reqs[..n];
  }

  /** The requests, served one after the other by the list of an inode. */
  method Serve(list: LockList, reqs: seq<Request>) returns (answers: seq<Errno>)
    requires list.Valid() && list.Contents() == []
    modifies list, list.data
    ensures list.Valid() && list.Contents() == AfterRequests(reqs) && answers == Answers(reqs)
  {
    answers := [];
    for n := 0 to |reqs|
      invariant list.Valid() && list.Contents() == AfterRequests(reqs[..n])
      invariant list.data == old(list.data) || fresh(list.data)
      invariant answers == Answers(reqs[..n])
    {
      RequestsNext(reqs, n);
      var errno := list.SetLock(reqs[n].owner, reqs[n].lk);
      answers := answers + [errno];
    }
    assert reqs[..|reqs|] == reqs;
  }

  // ----- a lost lock

  const TWO_LOCKS := [LockRecord(1, FileLock(0, 100, Write)), LockRecord(2, FileLock(200, 300, Write))]
  const MIDDLE := FileLock(10, 20, Unlock)

  lemma TwoLocksDamaged()
    ensures OwnDisjoint(TWO_LOCKS) && Exclusive(TWO_LOCKS)
    ensures Shared(TWO_LOCKS, 1, MIDDLE) ==
      [LockRecord(1, FileLock(0, 10, Write)), LockRecord(1, FileLock(20, 100, Write)), LockRecord(1, FileLock(20, 100, Write))]
  {
    InnerSplitDamages(TWO_LOCKS, 0, 1, MIDDLE);
  }

  /** Owner 1 gives up the middle of its lock; owner 2's write lock, never released, is gone, and
      owner 3 is granted the same bytes. */
  lemma LostLockExample()
    ensures Exclusive(TWO_LOCKS) && Holds(TWO_LOCKS, 2, Write, 250)
    ensures !Holds(Shared(TWO_LOCKS, 1, MIDDLE), 2, Write, 250)
    ensures AfterSetLock(Shared(TWO_LOCKS, 1, MIDDLE), 3, FileLock(200, 300, Write)).0 == OK
  {
    TwoLocksDamaged();
    assert HoldsAt(TWO_LOCKS[1], 2, Write, 250);
  }
}
