/** Whole runs of one open file, failed commits and their retries included. */
module OverlayRuns {
  import opened Options
  import opened Errnos
  import opened FileBytes
  import opened Numbers
  import opened ByteRanges
  import opened HubFile
  import opened Overlay
  import opened CommitPlan
  import opened PatchPlan
  import opened Publish
  import opened Commit

  datatype Op =
    | WriteOp(data: seq<Byte>, off: nat, append: bool)
    | SetSizeOp(newSize: int)
    | AllocateOp(off: nat, size: nat, mode: bv32, answer: Errno)
    | ReadOp(off: nat, length: nat)
    | CommitOp

  /** The answer to an operation: the bytes read, or what the hub stores once a commit went through. */
  datatype Reply = Reply(err: Errno, data: seq<Byte>)

  /** What an operation does to a plain file. A write counts even if it reports an error. */
  function AfterOp(content: seq<Byte>, op: Op, err: Errno): seq<Byte> {
    match op
    case WriteOp(data, off, append) => WriteAt(content, LandsAt(off, append, |content|), data)
    case SetSizeOp(size) => if err == OK && size >= 0 then Resize(content, size) else content
    case AllocateOp(off, size, mode, _) =>
      if err == OK && (mode == 0 || mode == 4) && off + size > |content| then Resize(content, off + size) else content
    case ReadOp(_, _) => content
    case CommitOp => content
  }

  function AfterOps(content: seq<Byte>, ops: seq<Op>, replies: seq<Reply>): seq<Byte>
    requires |ops| == |replies|
    decreases |ops|
  {
    if ops == [] then content
    else
      var n := |ops| - 1;
      AfterOp(AfterOps(content, ops[..n], replies[..n]), ops[n], replies[n].err)
  }

  /** The commits that behave: those that are right for what is stored, and, over a base snapshot, do
      not go through as a patch. */
  predicate CommitBehaves(j: Job, stored: nat, snapshot: bool)
    requires j.page > 0 && j.chunk > 0
  {
    Right(j, stored) && (j.rung == PatchRung && PatchTaken(j.dirty, j.page, j.baseSize, stored) ==> !snapshot)
  }

  /** The states in which an operation behaves: growing does not uncover old bytes, and a commit is
      of those that do. */
  ghost predicate Behaves(h: Handle, op: Op)
    requires h.ws.Valid()
    reads h.ws, h.ws.hub
  {
    match op
    case SetSizeOp(size) => !h.ws.StaleRegrow(size)
    case CommitOp => forall planned :: IsJob(h.JobOf(planned)) ==> CommitBehaves(h.JobOf(planned), |h.ws.hub.content|, h.ws.baseTemp.Some?)
    case _ => true
  }

  /** Whether an operation behaves can be told beforehand. */
  method Judge(h: Handle, op: Op) returns (b: bool)
    requires h.ws.Valid()
    ensures b <==> Behaves(h, op)
  {
    match op
    case SetSizeOp(size) => return !h.ws.StaleRegrow(size);
    case CommitOp =>
      var planned := h.PlannedRanges();
      var ws := h.ws;
      var j := Job(PickRung(planned, ws.dirtyRanges, ws.baseSize, ws.logicalSize), planned, ws.dirtyRanges, ws.baseSize,
        ws.logicalSize, ws.pageSize, ws.chunkSize);
      assert IsJob(h.JobOf(planned));
      forall other | IsJob(h.JobOf(other)) ensures h.JobOf(other) == j {
        SamePlan(j, h.JobOf(other));
      }
      return CommitBehaves(j, |ws.hub.content|, ws.baseTemp.Some?);
    case _ => return true;
  }

  lemma SamePlan(a: Job, b: Job)
    requires IsJob(a) && IsJob(b) && a.dirty == b.dirty
    requires a.baseSize == b.baseSize && a.size == b.size && a.page == b.page && a.chunk == b.chunk
    ensures a == b
  {
    JobUnique(a, b);
  }

  /** The state between two operations of a run. */
  ghost predicate Running(h: Handle)
    reads h.ws, h.ws.hub
  {
    h.ws.Valid() && h.ws.Honest() && !h.ws.poisoned && h.InTouch()
  }

  /** Told that it went through, the commit has stored what is shown, and told otherwise it can be
      repeated: whatever is stored and shown, and whatever becomes of its requests. */
  ghost predicate PublishesAll(j: Job, stored: nat)
    requires IsJob(j)
  {
    forall content, view, fates | |content| == stored && |view| == j.size && Matches(j, content, view) ::
      Published(j, SendJob(j, content, view, fates), view)
  }

  /** What a run can stop at: growing a file whose old end lies below a base it no longer shows; a
      commit that would publish some content wrong; and over a base snapshot a patch that goes
      through. Nothing else. */
  lemma BehavesIff(h: Handle, op: Op)
    requires Running(h)
    ensures !op.SetSizeOp? && !op.CommitOp? ==> Behaves(h, op)
    ensures op.SetSizeOp? ==> (Behaves(h, op) <==>
      !(h.ws.tempAuthoritative && h.ws.logicalSize < h.ws.baseSize && h.ws.logicalSize < op.newSize))
    ensures op.CommitOp? ==> (Behaves(h, op) <==>
      forall planned :: var j := h.JobOf(planned); IsJob(j) ==>
        && PublishesAll(j, |h.ws.hub.content|)
        && !(h.ws.baseTemp.Some? && j.rung == PatchRung
          && BatchAccepted(SpanEdits(j.dirty, j.page, j.baseSize, h.ws.View()), |h.ws.hub.content|)))
  {
    h.InTouchMatches();
    forall planned | IsJob(h.JobOf(planned))
      ensures Right(h.JobOf(planned), |h.ws.hub.content|) <==> PublishesAll(h.JobOf(planned), |h.ws.hub.content|)
      ensures h.JobOf(planned).rung == PatchRung ==>
        (PatchTaken(h.ws.dirtyRanges, h.ws.pageSize, h.ws.baseSize, |h.ws.hub.content|)
        <==> BatchAccepted(SpanEdits(h.ws.dirtyRanges, h.ws.pageSize, h.ws.baseSize, h.ws.View()), |h.ws.hub.content|))
    {
      RightIff(h.JobOf(planned), |h.ws.hub.content|);
      if h.JobOf(planned).rung == PatchRung {
        PatchTakenIff(h.ws.dirtyRanges, h.ws.pageSize, h.ws.baseSize, |h.ws.hub.content|, h.ws.View());
      }
    }
  }

  /** When an operation answers with an error: reads and writes only if the hub may fail, changes of
      the size only for what they ask. */
  predicate Served(op: Op, err: Errno, reliable: bool) {
    match op
    case WriteOp(_, _, _) => reliable ==> err == OK
    case ReadOp(_, _) => reliable ==> err == OK
    case SetSizeOp(size) => err == if size < 0 then EINVAL else OK
    case AllocateOp(off, size, mode, answer) =>
      err == if off + size > MAX_INT64 then EINVAL else if ModeVerdict(mode) != OK then ModeVerdict(mode)
        else if size == 0 then EINVAL else answer
    case CommitOp => true
  }

  /** One operation on the overlay. */
  method Step(h: Handle, op: Op) returns (r: Reply)
    requires Running(h) && Behaves(h, op)
    modifies h.ws, h.ws.hub
    ensures Running(h)
    ensures h.ws.View() == AfterOp(old(h.ws.View()), op, r.err)
    ensures op.ReadOp? && r.err == OK ==> r.data == ReadAt(old(h.ws.View()), op.off, op.length)
    ensures op.WriteOp? && r.err == OK ==> |h.ws.dirtyRanges| <= MAX_DIRTY_RANGES
    ensures op.CommitOp? && r.err == OK ==> r.data == h.ws.hub.content == old(h.ws.View())
    ensures Served(op, r.err, h.ws.hub.reliable)
  {
    match op {
      case CommitOp => r := CommitStep(h);
      case ReadOp(off, length) => r := ReadStep(h, off, length);
      case _ => r := ChangeStep(h, op);
    }
  }

  /** The operations that change the overlay alone. */
  method ChangeStep(h: Handle, op: Op) returns (r: Reply)
    requires Running(h) && Behaves(h, op) && !op.ReadOp? && !op.CommitOp?
    modifies h.ws
    ensures Running(h)
    ensures h.ws.View() == AfterOp(old(h.ws.View()), op, r.err)
    ensures op.WriteOp? && r.err == OK ==> |h.ws.dirtyRanges| <= MAX_DIRTY_RANGES
    ensures Served(op, r.err, h.ws.hub.reliable)
  {
    h.InTouchMatches();
    match op {
      case WriteOp(data, off, append) =>
        var _, err, _ := h.ws.Write(data, off, append);
        return Reply(err, []);
      case SetSizeOp(size) =>
        var err := h.ws.SetSize(size);
        return Reply(err, []);
      case AllocateOp(off, size, mode, answer) =>
        var err := h.ws.Allocate(off, size, mode, answer);
        return Reply(err, []);
    }
  }

  method ReadStep(h: Handle, off: nat, length: nat) returns (r: Reply)
    requires Running(h)
    modifies h.ws
    ensures Running(h) && h.ws.View() == old(h.ws.View())
    ensures r.err == OK ==> r.data == ReadAt(old(h.ws.View()), off, length)
    ensures h.ws.hub.reliable ==> r.err == OK
  {
    h.InTouchMatches();
    var buf := new Byte[length];
    var data, err := h.ReadPage(buf, length, off);
    return Reply(err, data);
  }

  method CommitStep(h: Handle) returns (r: Reply)
    requires Running(h) && Behaves(h, CommitOp)
    modifies h.ws, h.ws.hub
    ensures Running(h)
    ensures h.ws.View() == old(h.ws.View())
    ensures r.err == OK ==> r.data == h.ws.hub.content == old(h.ws.View())
  {
    ghost var view, stored := h.ws.View(), |h.ws.hub.content|;
    var planned, err := h.Commit();
    ghost var j := old(h.JobOf(planned));
    assert CommitBehaves(j, stored, old(h.ws.baseTemp).Some?);
    if j.rung == PatchRung && err == OK {
      PatchTakenIff(j.dirty, j.page, j.baseSize, stored, view);
      assert old(h.ws.baseTemp).None?;
    }
    if err == OK {
      assert h.ws.View() == view;
    }
    return Reply(err, h.ws.hub.content);
  }

  /** What a reply says of the content at that point: its slice to a read, all of it to a commit. */
  predicate Tells(content: seq<Byte>, op: Op, r: Reply) {
    && (op.ReadOp? && r.err == OK ==> r.data == ReadAt(content, op.off, op.length))
    && (op.CommitOp? && r.err == OK ==> r.data == content)
  }

  ghost predicate AllTell(start: seq<Byte>, ops: seq<Op>, replies: seq<Reply>)
    requires |ops| == |replies|
  {
    forall k :: 0 <= k < |ops| ==> Tells(AfterOps(start, ops[..k], replies[..k]), ops[k], replies[k])
  }

  predicate AllServed(ops: seq<Op>, replies: seq<Reply>, reliable: bool)
    requires |ops| == |replies|
  {
    forall k :: 0 <= k < |ops| ==> Served(ops[k], replies[k].err, reliable)
  }

  lemma NextServed(ops: seq<Op>, done: nat, replies: seq<Reply>, r: Reply, reliable: bool)
    requires done == |replies| < |ops| && AllServed(ops[..done], replies, reliable) && Served(ops[done], r.err, reliable)
    ensures AllServed(ops[..done + 1], replies + [r], reliable)
  {
    forall k | 0 <= k < done + 1 ensures Served(ops[..done + 1][k], (replies + [r])[k].err, reliable) {
      if k < done {
        assert Served(ops[..done][k], replies[k].err, reliable);
      }
    }
  }

  lemma NextReply(start: seq<Byte>, ops: seq<Op>, done: nat, replies: seq<Reply>, r: Reply)
    requires done == |replies| < |ops| && AllTell(start, ops[..done], replies)
    requires Tells(AfterOps(start, ops[..done], replies), ops[done], r)
    ensures AllTell(start, ops[..done + 1], replies + [r])
    ensures AfterOps(start, ops[..done + 1], replies + [r]) == AfterOp(AfterOps(start, ops[..done], replies), ops[done], r.err)
  {
    var more, told := ops[..done + 1], replies + [r];
    assert forall k :: 0 <= k <= done ==> more[..k] == ops[..done][..k] && told[..k] == replies[..k];
    assert ops[..done][..done] == ops[..done] && replies[..done] == replies;
  }

  /** The next operation, if it behaves. */
  method Turn(h: Handle, op: Op) returns (went: bool, r: Reply)
    requires Running(h)
    modifies h.ws, h.ws.hub
    ensures Running(h)
    ensures !went ==> !Behaves(h, op) && h.ws.View() == old(h.ws.View())
    ensures went ==> h.ws.View() == AfterOp(old(h.ws.View()), op, r.err) && Tells(old(h.ws.View()), op, r)
    ensures went ==> Served(op, r.err, h.ws.hub.reliable)
  {
    went := Judge(h, op);
    if went {
      r := Step(h, op);
    } else {
      r := Reply(OK, []);
    }
  }

  /** Every run of writes, truncates, allocations, reads and commits, whatever becomes of the requests
      sent, up to the first operation that finds a state in which it does not behave, is a run of a
      plain file. Failed commits, and the retries that follow them, are part of it. */
  method Run(h: Handle, ops: seq<Op>) returns (done: nat, replies: seq<Reply>)
    requires Running(h)
    modifies h.ws, h.ws.hub
    ensures Running(h) && done == |replies| <= |ops|
    ensures done < |ops| ==> !Behaves(h, ops[done])
    ensures h.ws.View() == AfterOps(old(h.ws.View()), ops[..done], replies)
    ensures AllTell(old(h.ws.View()), ops[..done], replies)
    ensures AllServed(ops[..done], replies, h.ws.hub.reliable)
  {
    replies := [];
    done := 0;
    ghost var start := h.ws.View();
    while done < |ops|
      invariant Running(h)
      invariant done == |replies| <= |ops|
      invariant h.ws.View() == AfterOps(start, ops[..done], replies)
      invariant AllTell(start, ops[..done], replies)
      invariant AllServed(ops[..done], replies, h.ws.hub.reliable)
    {
      var went, r := Turn(h, ops[done]);
      if !went {
        return;
      }
      NextReply(start, ops, done, replies, r);
      NextServed(ops, done, replies, r, h.ws.hub.reliable);
      replies := replies + [r];
      done := done + 1;
    }
  }
}
