# StorHub: a verified model

StorHub keeps a project's files as chunks in GitHub releases and serves them as a file system. This
Dafny project models the parts of it that decide what bytes a reader gets and which tree a project
has, and proves them against simple references: a file is a sequence of bytes, a tree is a pair of
maps, an index is a full rebuild.

`dafny verify dfyconfig.toml` checks everything.

| module | models |
|---|---|
| `FileBytes`, `ByteRanges` | files as byte sequences; merged span lists and the three functions that maintain them |
| `HubFile` | one stored file and the verbs that publish to it, over a network that loses requests and answers |
| `Overlay` | the write overlay of an open inode: temp, base, dirty spans, logical size |
| `CommitPlan`, `PatchPlan`, `Publish` | the commit ladder as a function: chunk plan, page edits, what is sent, and exactly when that is right |
| `SharedWalk`, `Commit` | the walk over the list being consumed; the ladder as the code climbs it |
| `Ladder` | what is planned and which rung is taken, counted in bytes; commits nothing interferes with |
| `OverlayRuns`, `BadRuns` | whole runs on one open file, retries included; the states in which they go wrong |
| `LiveRead`, `Lseek`, `Playlist` | reads through another handle's overlay, SEEK_DATA/SEEK_HOLE, positional reads over chunk lists |
| `RepoTree`, `MerkleObjects`, `MerkleCodec`, `MerkleBuild` | the flat tree and its serialization into content-addressed objects, with the build cache; a codec of the assumed kind |
| `MerkleLoad`, `MerkleLoadRuns`, `MerkleLoadable`, `MerkleRoundTrip` | the parallel loader as a transition system; every run; success; the round trip |
| `SortedNames`, `DerivedIndex` | the derived indexes on the heap, shared copy-on-write between clones |
| `Symlink`, `SymlinkLaws` | the path resolver with its permission chain; what `..`, names and links mean to a caller |
| `Subtree` | directory rename |
| `Locks` | the advisory lock list, filtered inside its own array |
| `Governor` | API admission control |
| `Wakeups` (`OpRelease`, `SlotWake`) | the two broadcast protocols as transition systems |

## Main results

* Every run of writes, truncates, allocations, reads, commits and retries on an overlay, whatever
  becomes of the requests sent, is a run of a plain byte sequence, up to the first operation that
  finds a state of one of four kinds (`OverlayRuns.Run`): growing that is left to a stale base, a
  rewrite that loses a tail, a patch over a base snapshot, and a commit that meets more stored bytes
  than it believes in. A caller can tell each beforehand (`OverlayRuns.Judge`).
* A commit publishes every content, whatever becomes of its requests, exactly in the states that
  are right (`Publish.RightIff`); the code sends what that function says (`Commit.Handle.Commit`).
* The rung of a commit depends on how many bytes are dirty and in how many pieces the plan is
  (`Ladder.RungIs`). A commit over exactly the base, with every request confirmed, goes through
  exactly when its size, or its pages, are within reach (`Ladder.CommitQuietly`): a new file, always.
* A load that succeeds returns the one tree its manifest stands for, whatever the schedule and
  whatever the store answered; against a fixed store the outcome does not depend on the schedule;
  every load stops (`LoadDetermined`, `LoadSucceedsIff`, `LoadStops`).
* A built tree loads back exactly when no chunk id is negative and no directory lies deeper than
  4096 (`MerkleRoundTrip.RoundTrip`, `BuildThenLoad`). The cycle check never rejects a built tree.
* Any interleaving of tracked mutations, rebuilds and clones on any number of trees behaves as on
  values that share nothing, and a fresh index is the exact one (`DerivedIndex.Interleave`).
* The symlink worklist is the recursive definition; its keys are physical, and, but for a key of one
  whitespace-only name, stable under re-resolution and covered by the chain it records. Behind a path
  `..` is the physical parent, and a link is its target from the directory that holds it
  (`SymlinkLaws.DotDotIsParent`, `LinkBehind`).
* A directory rename carries every entry over with all its fields but its times
  (`Subtree.RenameMoves`, `RenameLeaves`), and is allowed exactly when nothing is in its way
  (`Subtree.RenameAllowedIff`).
* The in-place lock filter equals the pure one exactly when no record but the last is split;
  exclusion holds after every sequence of requests either way, and a lock is granted exactly when no
  other owner holds one of its bytes in the way (`Locks.GrantedIff`).

## Where the code departs from its promises

Each has its exact condition, proved for all contents, and a concrete run or input.

* Growing a file back after a truncate to nothing shows the old base bytes when the temp is
  authoritative and the old size is below the base size (`internal/fusefs/fuse_write_ranges.go:223`;
  `BadRuns.StaleRegrowShows`, `StaleRegrowRun`).
* A chunk rewrite loses the tail of the last partial chunk when the only dirty bytes of that chunk
  lie past the old size (`internal/fusefs/fuse_write_ranges.go:452-473`; `Publish.RewriteFaithfulIff`,
  `BadRuns.LostTailRun`).
* The hub refuses every batch with an edit that ends past the stored size
  (`internal/storage/verbs_upload.go:180-184`), so a growing span longer than a page past the old size
  is never committed (`PatchPlan.PatchTakenIff`, `BadRuns.RefusedPatchRun`).
* A patch commit removes spans from the list it is walking, in the same array; every second span is
  left, and the overlay with a base snapshot then forgets the others
  (`internal/fusefs/fuse_write_commit.go:442-457`, `548-553`; `BadRuns.ForgottenIff`, `ForgottenSpanRun`).
* A batch that landed is not always safe to send again, against the comment at
  `internal/fusefs/fuse_write_commit.go:522-526`. If it grows the file, it grows it once more, and
  that is right only where a size is sent behind it which cuts the surplus off: neither for a file
  extended past its last dirty byte nor for a plain append (`Publish.PatchReplayIff`,
  `BadRuns.ReplayRun`, `AppendTwiceRun`). More generally a commit that meets surplus bytes is right
  exactly where none of them is shown (`Publish.RightIff`).
* Of the three tests for a full replace only the one for half of the file ever decides, against the
  comment at `internal/fusefs/fuse_write_ranges.go:490-493`: three quarters are more than a half, and
  a plan in twelve pieces has been rewritten before the test is made (`Ladder.RungIs`).
* A path such as `./` followed by a name of spaces resolves to that name, which is turned away when
  it is resolved or walked in its turn (`internal/fs/symlink.go:109`, `internal/fs/path.go:69-78`;
  `Symlink.ResolveKeyAgain`, `ChainCoversKey`, `BlankNameExample`).
* The fingerprint of the indexes is meant to catch a whole map swapped in untracked
  (`internal/metadata/index.go:109-116`). No operation swaps one, so no reachable index is wrong; but
  a clone made after a swap, or the first tracked put, would take the old index for fresh, rightly
  exactly if the two maps were alike (`DerivedIndex.SwapThenClone`, `SwapThenPut`, `SwapThenCloneRun`).
* An unlock inside one of an owner's locks drops every later record of the list, other owners'
  included (`internal/fusefs/fuse_lock.go:107-116`; `Locks.SharedExactIff`, `LostLockExample`).
* The read reserve leaves no room for a content request in windows below six points
  (`internal/github/ratelimit.go:209-211`; `Governor.TinyWindowAdmitsIff`). A rollback across a window
  makes room the window does not have (`Governor.CrossedRollbackOverspends`); there the result is a
  bound, not an equivalence: a window is overspent by no more than was taken back across it.

## Model

| member | source | states |
|---|---|---|
| `ByteRanges.CanonicalFormUnique` | internal/fs/range.go:29-31 | a merged list is determined by the offsets it covers |
| `ByteRanges.InsertAbsorb` | internal/storage/byterange.go:18-49 | insert-and-absorb gives the normal form of the union; an empty span changes nothing |
| `ByteRanges.MergeByteRanges` | internal/fs/range.go:32-55 | sort-and-sweep covers the same offsets and, without empty spans, is in normal form |
| `ByteRanges.AppendMerge` | internal/fusefs/fuse_write_ranges.go:475-480 | appending one span and merging gives the normal form of the union |
| `ByteRanges.UnionUnique` | internal/fs/range.go:29-31 | any two results that are the merged union of the same input are identical lists |
| `Overlay.MergesAgree` | internal/fusefs/fuse_write_ranges.go:22-53 | the in-place shift, the insert-and-absorb and the sort-and-sweep return the identical list |
| `HubFile.Hub.ReadFileAt` | internal/fs/io.go:271-288 | a read returns the clamped slice of the stored content, or fails |
| `HubFile.Hub.TruncateFile` | internal/fs/io.go:103-134 | the content is cut or zero-extended to the size unless the request is lost; growth past 16 MiB is refused |
| `HubFile.Hub.PatchFileRanges` | internal/storage/verbs_upload.go:147-184 | a batch is applied left to right when it is accepted and arrives, and the content is unchanged otherwise |
| `HubFile.Hub.RewriteFileRanges` | internal/storage/patch.go:170-227 | each chunk-aligned segment comes from the snapshot if a range touches it, from the old content if not |
| `HubFile.AcceptedInside` | internal/fs/types.go:97-107 | what the hub accepts is sorted, disjoint and inside the file, so that the splices are defined |
| `Overlay.WriteState.MarkDirty` | internal/fusefs/fuse_write_ranges.go:22-53 | the in-place shift leaves the normal form of the old list together with the span |
| `Overlay.WriteState.TruncateDirtyRanges` | internal/fusefs/fuse_write_ranges.go:159-171 | exactly the offsets below the size stay dirty |
| `Overlay.WriteState.CoversRange` | internal/fusefs/fuse_write_ranges.go:173-195 | answers whether every byte of the span is dirty |
| `Overlay.WriteState.NextDirtyRange` | internal/fusefs/fuse_write_ranges.go:348-358 | finds the span that holds the offset, or the first one after it with nothing dirty between |
| `Overlay.WriteState.SetSize` | internal/fusefs/fuse_write_ranges.go:209-245 | the content shown is resized, zeros past the old end, unless growth is left to the base; which bytes are dirty afterwards |
| `Overlay.WriteState.ReadInto` | internal/fusefs/fuse_write_ranges.go:266-335 | fills the buffer with the clamped slice of the content shown; a failed read leaves a correct prefix |
| `Overlay.WriteState.BackfillGap` | internal/fusefs/fuse_write_ranges.go:118-157 | copies base bytes into the temp without changing what is shown, however far it gets |
| `Overlay.WriteState.Coalesce` | internal/fusefs/fuse_write_ranges.go:84-116 | collapses the list to one authoritative span; nothing shown changes, on failure nothing at all |
| `Overlay.WriteState.EnsureDirtyBounded` | internal/fusefs/fuse_write_ranges.go:61-82 | at most 1024 spans afterwards, the same bytes shown |
| `Overlay.WriteState.Write` | internal/fusefs/fuse_write_commit.go:41-105 | the content shown is the old one with the data written at the offset, or at the end when appending past it; the list takes up exactly the bytes written, and has at most 1024 spans on success |
| `Overlay.WriteState.Allocate` | internal/fusefs/fuse_file_write.go:36-86 | grows the content with zeros when the mode asks for it, changes nothing otherwise; each error exactly when, and success whenever the local file system gives the space |
| `Overlay.ModeVerdict` | internal/fusefs/fuse_file_write.go:52-60 | four modes are served; which others are invalid and which unsupported |
| `Overlay.AppendLands` | internal/fusefs/fuse_write_commit.go:41-105 | an appending write at or past the end puts its bytes right behind the last one; any other goes where it says |
| `Overlay.WriteState.RefreshBaseSnapshot` | internal/fusefs/fuse_write.go:280-308 | the base snapshot takes over the dirty bytes and the size |
| `Commit.Handle.PlannedRanges` | internal/fusefs/fuse_write_ranges.go:452-473 | the plan is the merged union of the dirty spans widened to chunks |
| `Publish.RewritePublishes` | internal/storage/patch.go:170-227 | a chunk rewrite of the plan stores the content shown, whatever was stored, when no tail is lost and nothing shows through |
| `Publish.RewriteFaithfulIff` | internal/fusefs/fuse_write_ranges.go:452-473 | the rewritten content is the content shown, for every stored content, exactly when no tail is lost |
| `CommitPlan.TailLostWhen` | internal/fusefs/fuse_write_ranges.go:452-473 | when a tail is lost, in terms of the dirty list and the two sizes |
| `BadRuns.LostTailRun` | internal/fusefs/fuse_write_commit.go:314-363 | two one-byte writes: the ladder picks the rewrite, and two old bytes are stored as zero |
| `CommitPlan.TouchedUnplanned` | internal/storage/patch.go:197-216 | a touched segment holds an unplanned byte below the old size only in the lost tail |
| `PatchPlan.SpanEditsShape` | internal/fusefs/fuse_write_commit.go:461-520 | the page edits are in order, inside the file but for the last, and carry the content shown on exactly the dirty bytes |
| `PatchPlan.PatchTakenIff` | internal/storage/verbs_upload.go:147-184 | the hub accepts the page edits exactly when no page starts past the stored size, whatever size the commit believed in |
| `PatchPlan.BatchLaid` | internal/fs/types.go:97-107 | a batch on any stored content: right up to the first edit that grows the old content, and behind that comes the first byte it did not know of |
| `PatchPlan.SpanGrowth` | internal/fusefs/fuse_write_commit.go:505-515 | a batch adds exactly the dirty bytes past the size it believes in |
| `Publish.PatchPublishes` | internal/fusefs/fuse_write_commit.go:461-546 | an accepted batch followed by the size stores the content shown, or leaves the clean stored bytes for another attempt |
| `Publish.PatchReplayIff` | internal/fusefs/fuse_write_commit.go:522-526 | a batch that landed can be sent again, for every content, exactly when it grows nothing or the size behind it cuts its second growth off |
| `Publish.RightIff` | internal/fusefs/fuse_write_commit.go:314-363 | a commit publishes every content, whatever was stored and whatever becomes of its requests, exactly in the states that are right |
| `Publish.JobUnique` | internal/fusefs/fuse_write_ranges.go:452-473 | the plan and the rung are determined by the dirty list and the sizes |
| `BadRuns.ReplayRun` | internal/fusefs/fuse_write_commit.go:516-538 | the batch lands, the size is lost, the retry reports success and has stored two bytes twice |
| `BadRuns.AppendTwiceRun` | internal/fusefs/fuse_write_commit.go:526-538 | an appended byte whose answer was lost is stored twice by the retry |
| `BadRuns.RefusedPatchRun` | internal/storage/verbs_upload.go:180-184 | ten bytes appended through pages of four: no commit goes through, however often it is repeated |
| `PatchPlan.AppendFitsIff` | internal/fusefs/fuse_write_commit.go:461-520 | a growing span is accepted exactly when its last page starts inside the file or at its end |
| `SharedWalk.ConsumePlanned` | internal/fusefs/fuse_write_commit.go:442-459 | removing every span of a list while walking it in the same array leaves every second span |
| `SharedWalk.RemoveInPlace` | internal/fusefs/fuse_write_commit.go:442-459 | one removal in place drops exactly the span and shifts the rest down |
| `Commit.Handle.WriteRangeTo` | internal/fusefs/fuse_write_snapshot.go:12-32 | the copy holds the content shown on the range and is untouched elsewhere |
| `Commit.Handle.RangeSnapshot` | internal/fusefs/fuse_write_snapshot.go:134-158 | a sparse snapshot holds the content shown on every planned range |
| `Commit.Handle.ReplaceInput` | internal/fusefs/fuse_write_snapshot.go:120-132 | the upload input of a replace is the content shown |
| `Commit.Handle.PatchEdits` | internal/fusefs/fuse_write_commit.go:461-520 | the two loops build the page edits of the content shown |
| `Commit.Handle.CacheRefresh` | internal/fusefs/fuse_write_commit.go:570-585 | after the refresh the base is the published content and nothing is dirty |
| `Commit.Handle.CommitTruncate` | internal/fusefs/fuse_write_commit.go:314-336 | a pure size change sends the size; once through, the overlay shows what is stored, or over a snapshot what it showed |
| `Commit.Handle.CommitChunkRewrite` | internal/fusefs/fuse_write_commit.go:365-405 | sends the snapshot of the plan; once through, the overlay is settled; otherwise everything stays dirty |
| `Commit.Handle.CommitReplace` | internal/fusefs/fuse_write_commit.go:407-440 | sends the content shown; once through, the overlay is settled; otherwise everything stays dirty |
| `Commit.Handle.CommitPatch` | internal/fusefs/fuse_write_commit.go:461-568 | sends the page edits and the size behind them; what the overlay shows afterwards, byte by byte |
| `Commit.Handle.Commit` | internal/fusefs/fuse_write_commit.go:314-363 | sends what the ladder says, whatever is stored and becomes of it; in the right states a commit that went through has stored the content shown, and one that failed has changed nothing shown and can be repeated |
| `Ladder.TotalIsCovered` | internal/fusefs/fuse_write_ranges.go:482-488 | the length of a merged list is the number of offsets it covers |
| `Ladder.PlannedIff` | internal/fusefs/fuse_write_ranges.go:452-473 | a byte is planned exactly when it is dirty or old and shares a chunk with a dirty old byte |
| `Ladder.RungIs` | internal/fusefs/fuse_write_ranges.go:517-546 | the rung by the number of dirty offsets, the number of planned pieces and the offsets they cover: each rung exactly when |
| `Ladder.ConfirmedIff` | internal/fusefs/fuse_write_commit.go:314-363 | with the base stored and every request confirmed, when a commit is told it went through, and that it has then stored the content shown |
| `Ladder.CommitQuietly` | internal/fusefs/fuse_write_commit.go:314-363 | the same of the commit itself, on any overlay over a hub that answers |
| `Ladder.CommitMostlyDirty` | internal/fusefs/fuse_write_ranges.go:517-533 | a file at least half dirty with a plan in one piece is published by one commit |
| `Ladder.CommitNewFile` | internal/fusefs/fuse_write_ranges.go:517-533 | a new file written from start to end is published by one commit, whatever its size |
| `OverlayRuns.Run` | internal/fusefs/fuse_write_commit.go:12-105 | every run, failed commits and retries included, up to the first operation in a bad state, is a run of a plain byte sequence, reads and stored contents included; over a hub that answers no read or write fails, and a change of size only for what it asks |
| `OverlayRuns.BehavesIff` | internal/fusefs/fuse_write_ranges.go:209-245 | what a run can stop at: growing past an old end below a hidden base, a commit that would publish some content wrong, and a patch that goes through over a base snapshot; nothing else |
| `OverlayRuns.Judge` | internal/fusefs/fuse_write_ranges.go:507-546 | whether the next operation finds a bad state can be told from the overlay and the stored size |
| `BadRuns.StaleRegrowRun` | internal/fusefs/fuse_write_ranges.go:209-245 | truncate to nothing and regrow: the old bytes are read, and the commit finds nothing to do |
| `BadRuns.StaleRegrowShows` | internal/fusefs/fuse_write_ranges.go:223 | the content shown after the growth is the old one with zeros, for every base, exactly when the old size is not below the base size |
| `BadRuns.ForgottenIff` | internal/fusefs/fuse_write_commit.go:548-578 | over a base snapshot a byte is shown as before a patch, whatever temp and snapshot hold, exactly when it was clean or is still listed |
| `BadRuns.FirstForgotten` | internal/fusefs/fuse_write_commit.go:548-553 | the first dirty span is never still listed |
| `BadRuns.ForgottenSpanRun` | internal/fusefs/fuse_write_commit.go:548-578 | a byte written and patched over a snapshot: the hub has the new one, the overlay shows the old one |
| `LiveRead.ReadLiveOverlay` | internal/fusefs/fuse_file.go:600-685 | served exactly when the overlay is live and not closed; returns the clamped slice of the content shown whenever the pin is the base |
| `LiveRead.SweepDirty` | internal/fusefs/fuse_file.go:631-666 | after the first loop dirty bytes are in place and the clean gaps are exactly the ones listed |
| `LiveRead.FillClean` | internal/fusefs/fuse_file.go:667-683 | overwriting the listed gaps leaves the dirty bytes alone and completes the slice |
| `Lseek.LseekExtents` | internal/fusefs/fuse_lookup_lseek.go:122-183 | the extents are the normal form of exactly the data offsets below the size |
| `Lseek.SeekToData` | internal/fusefs/fuse_lookup_lseek.go:52-65 | the least data offset at or after the start; ENXIO exactly when there is none |
| `Lseek.SeekToHole` | internal/fusefs/fuse_lookup_lseek.go:66-85 | the least offset at or after the start that is no data, the end of the file being one; ENXIO exactly past the end |
| `Lseek.Seek` | internal/fusefs/fuse_lookup_lseek.go:40-89 | the two seeks behind one call; EINVAL, EIO and ENXIO each exactly when |
| `Lseek.HolesReadZero` | internal/fusefs/fuse_lookup_lseek.go:31-39 | what the seek calls a hole is read as zero |
| `Playlist.SearchChunks` | internal/fs/io.go:291-293 | the binary search splits the list at the first chunk that ends after the offset |
| `Playlist.ReadFileAt` | internal/fs/io.go:250-313 | returns the clamped slice of the file, each chunk from its own offset in its own asset and gaps as zeros, without overflow for any offset and length |
| `MerkleObjects.NodeShaInjective` | internal/metadata/merkletree.go:177-181 | equal addresses mean equal nodes |
| `MerkleObjects.BucketIs` | internal/metadata/merkletree.go:28-33 | bucket b holds exactly the ids from 65536 b up to the next bucket |
| `MerkleObjects.RefsUnique` | internal/metadata/merkle_build.go:29-47 | the manifest references of a tree are determined by the tree: the same with a cache as without |
| `MerkleBuild.CheckedIffWalkable` | internal/metadata/merkle_build.go:87-111 | the one-level check accepts exactly the trees in which every ancestor of every entry is a stored directory and no path is both kinds |
| `MerkleBuild.SortedTreeDirs` | internal/metadata/merkle_build.go:129-139 | lists the root and every directory, deepest first |
| `MerkleBuild.GroupFileNamesByParent` | internal/metadata/merkle_build.go:113-127 | each file stands under its base name in its parent group, and nothing else does |
| `MerkleBuild.NodeReady` | internal/metadata/merkle_build.go:146-160 | when a directory comes up, its collected files and child addresses are those of its node |
| `MerkleBuild.EmitNode` | internal/metadata/merkle_build.go:151-174 | the address is that of the node and the object is stored or handed over; the cache then describes it, and if it did before nothing is handed over |
| `MerkleBuild.EmitTreeNodes` | internal/metadata/merkle_build.go:141-177 | every directory node gets its own address, and all of them are at hand |
| `MerkleBuild.StreamChunkBuckets` | internal/metadata/merkle_build.go:227-273 | the bucket addresses in ascending order, all of them at hand |
| `MerkleBuild.StreamReleases` | internal/metadata/merkle_build.go:275-295 | the address of the release catalog, at hand |
| `MerkleBuild.BuildTreeStream` | internal/metadata/merkle_build.go:49-80 | with any sound cache the references are those of the tree and everything they reach is at hand; fails exactly on a bad tree or a refused object; the cache then describes the tree, and if it did before nothing is handed over |
| `MerkleBuild.BuildTwice` | internal/metadata/merkle_build.go:151-156 | building the same tree again hands nothing over and gives the same references |
| `MerkleBuild.BuildOnClone` | internal/metadata/merkletree.go:142-163 | a build on a copy leaves the original cache describing stored objects only, whatever becomes of it |
| `MerkleBuild.TreeCache.Clone` | internal/metadata/merkletree.go:142-163 | a fresh cache with the same entries |
| `MerkleLoad.LoadBucket` | internal/metadata/merkle_load.go:317-334 | accepts a bucket exactly when its ids are its own, not negative and not yet loaded, in whatever order it meets them; a complaint is true of the id it names |
| `MerkleLoad.LoadedUnique` | internal/metadata/merkle_load.go:15-20 | a manifest stands for at most one tree |
| `MerkleLoad.SomeTaskCanMove` | internal/metadata/merkle_load.go:199-221 | a loader that is not at rest can take a step |
| `MerkleLoad.WalkChild` | internal/metadata/merkle_load.go:244-252 | the directories below a reached one are those its node names |
| `MerkleLoadRuns.TasksKeptByNext` | internal/metadata/merkle_load.go:254-293 | at every step each task is at its own path with its own ancestor chain, and is spawned once |
| `MerkleLoadRuns.LoadStops` | internal/metadata/merkle_load.go:36-46 | no run is longer than three steps for each task the manifest can have |
| `MerkleLoadRuns.LoadedByNext` | internal/metadata/merkle_load.go:254-363 | at every step of a load that has not failed, exactly what the finished tasks stand for is in the tree |
| `MerkleLoadRuns.LoadIsFaithful` | internal/metadata/merkle_load.go:115-177 | a load that succeeds returns the tree its manifest stands for |
| `MerkleLoadRuns.LoadDetermined` | internal/metadata/merkle_load.go:58-65 | two successful loads of one manifest agree, whatever their schedules and stores |
| `MerkleLoadable.LoadSucceedsIff` | internal/metadata/merkle_load.go:115-177 | against a fixed store a finished load has succeeded exactly when every reached object is there, intact and well-formed, no directory too deep or its own ancestor, no two buckets overlapping |
| `MerkleLoadable.LoadableIff` | internal/metadata/merkle_load.go:254-363 | loadable means: every reached directory at most 4096 deep, not below itself, stored and readable; every bucket too, with ids of its own 65536 only and none twice; the catalog too |
| `MerkleLoadable.LoadableNext` | internal/metadata/merkle_load.go:254-363 | no step of a load of a loadable manifest fails |
| `MerkleRoundTrip.BuiltWalk` | internal/metadata/merkle_build.go:129-177 | the walk from a built root reaches exactly the directories, each at its own node |
| `MerkleRoundTrip.NoNodeBelowItself` | internal/metadata/merkle_load.go:264-269 | no directory has the node of one of its descendants, shared subtrees or not |
| `MerkleRoundTrip.BuiltNotRejected` | internal/metadata/merkle_load.go:258-269 | a built directory is turned away exactly when it is too deep |
| `MerkleRoundTrip.BuiltLoadableIff` | internal/metadata/merkle_load.go:258-334 | a built tree is loadable exactly when no chunk id is negative and no directory deeper than 4096 |
| `MerkleRoundTrip.RoundTrip` | internal/metadata/merkle_build.go:82-86 | any finished load of a built tree succeeds under exactly that condition and gives the tree back, a "" directory key excepted |
| `MerkleRoundTrip.NoOtherTree` | internal/metadata/merkle_load.go:58-65 | whatever a load of a built tree is answered, a success can only be that tree |
| `MerkleRoundTrip.BuildThenLoad` | internal/metadata/merkle_build.go:49-86 | what a build hands over, with what was stored before, loads back to the tree, whatever the cache let it skip |
| `MerkleCodec.CodecExists` | internal/metadata/merkletree.go:177-181 | an encoding and a hash of the kind assumed can be had |
| `SortedNames.LessIff` | internal/metadata/index.go:168-181 | the order of the lists is the byte order: at the first difference the smaller character or the end comes first |
| `SortedNames.SearchStrings` | internal/metadata/index.go:258-279 | the binary search splits the list at the name |
| `SortedNames.InsertSortedString` | internal/metadata/index.go:258-269 | the list stays sorted and gains exactly the name |
| `SortedNames.RemoveSortedString` | internal/metadata/index.go:271-279 | the list stays sorted and loses exactly the name |
| `SortedNames.GroupAll` | internal/metadata/index.go:168-181 | append-then-sort yields the grouping of the names |
| `SortedNames.GroupingUnique` | internal/metadata/index.go:131-142 | a full rebuild has only one result, order included |
| `DerivedIndex.ParentKeyOf` | internal/metadata/helpers.go:56-66 | a bare name lies in the root, a name behind a directory and a slash in that directory |
| `DerivedIndex.ChildIff` | internal/metadata/helpers.go:56-66 | a key lies in a directory exactly when it is a name behind the directory and a slash, or in the root a bare name |
| `DerivedIndex.Repo.EnsureDerived` | internal/metadata/index.go:61-78 | the state is one this tree owns, the old one only if it owned it |
| `DerivedIndex.Repo.IndexForIncremental` | internal/metadata/index.go:80-98 | hands out a state only when it is clean and no clone reads its maps |
| `DerivedIndex.Repo.RebuildIndexes` | internal/metadata/index.go:131-166 | fresh, exact and unshared indexes |
| `DerivedIndex.Repo.TrackDirPut` | internal/metadata/index.go:185-194 | the indexes stay exact over the put |
| `DerivedIndex.Repo.TrackDirRemove` | internal/metadata/index.go:196-210 | the indexes stay exact over the removal |
| `DerivedIndex.Repo.TrackFilePut` | internal/metadata/index.go:212-234 | the indexes stay exact over the put, inode changes included |
| `DerivedIndex.Repo.TrackFileRemove` | internal/metadata/index.go:236-256 | the indexes stay exact over the removal |
| `DerivedIndex.Repo.DirectoryChildren` | internal/metadata/metadata_entries.go:78-96 | in path order exactly the stored keys that are a name behind the directory and a slash, or in the root a bare name |
| `DerivedIndex.Repo.FindFilesByInode` | internal/metadata/metadata_entries.go:207-214 | the names of the inode and nothing else, in path order |
| `DerivedIndex.Repo.Clone` | internal/metadata/metadata.go:218-275 | an independent copy of the maps; index maps shared and marked so on both sides unless dirty |
| `DerivedIndex.Step` | internal/metadata/metadata.go:231-236 | an operation on one tree changes nothing another tree stores or reads |
| `DerivedIndex.CloneStep` | internal/metadata/metadata.go:231-236 | a clone joins with the same contents and freshness; no reader notices |
| `DerivedIndex.Interleave` | internal/metadata/index.go:9-15 | every interleaving on any number of trees behaves as on plain values, and keeps every fresh index exact |
| `DerivedIndex.FreshIsRebuilt` | internal/metadata/index.go:109-122 | a fresh index equals a full rebuild, element for element |
| `DerivedIndex.SwapThenClone` | internal/metadata/metadata.go:255-272 | a clone of a tree whose file map was swapped is fresh, and exact exactly when the maps are alike |
| `DerivedIndex.SwapThenPut` | internal/metadata/index.go:80-107 | the first tracked put after a swap makes the index fresh, and exact exactly when the maps were alike |
| `DerivedIndex.SwapThenCloneRun` | internal/metadata/metadata.go:255-272 | a clone that is fresh and lists none of its files |
| `Symlink.ResolveConcat` | internal/fs/symlink.go:96-107 | resolving a concatenation is resolving one part behind the other |
| `Symlink.ResolvePathTracked` | internal/fs/symlink.go:49-111 | the worklist returns what the recursive definition gives, and stops |
| `SymlinkLaws.DotDotIsParent` | internal/fs/symlink.go:71-77 | behind a path, `..` leads to its key without the last component, or escapes at the root |
| `SymlinkLaws.DotBehind` | internal/fs/symlink.go:69-70 | behind a path, a dot changes nothing about its key, and puts it in the chain |
| `SymlinkLaws.NameBehind` | internal/fs/symlink.go:79-91 | behind a path, a name that is no link is appended to its key |
| `SymlinkLaws.LinkBehind` | internal/fs/symlink.go:92-107 | behind a path, a link is its target from the directory that holds it, or from the root if absolute, or too many links have been followed |
| `SymlinkLaws.FortyLinks` | internal/fs/symlink.go:92-95 | forty links in a row are followed, and no more |
| `SymlinkLaws.LinkFreeIsStacked` | internal/fs/symlink.go:39-42 | without links the key is the stack of names, and the resolution fails exactly where a `..` finds it empty |
| `SymlinkLaws.ChainHoldsTheWay` | internal/fs/symlink.go:24-31 | the chain of a path begins with that of every path it starts with, holds the directory each leads to, and nothing but what exists and is no link |
| `SymlinkLaws.PassesIff` | internal/fs/permissions.go:234-258 | a chain is passed exactly when each of its directories is stored, no file, and open to the caller |
| `SymlinkLaws.FirstRefused` | internal/fs/permissions.go:234-258 | the answer is that of the first directory that may not be passed: which error when |
| `Symlink.ResolutionIsPhysical` | internal/fs/symlink.go:32-48 | the key has no dots, no link on the way, and in stat mode is none; the chain holds the root and every existing ancestor |
| `Symlink.ResolveKeyAgain` | internal/fs/symlink.go:41-48 | resolving the key again gives the key exactly when it is not one whitespace-only name |
| `Symlink.CheckWalkResolved` | internal/fs/permissions.go:234-258 | the first refusal in walk order, though no directory is checked twice |
| `Symlink.ChainCoversKey` | internal/fs/permissions.go:211-233 | passing the chain of a resolution is passing the walk to its key exactly when that is not one whitespace-only name |
| `Symlink.KeyDoesNotCoverChain` | internal/fs/permissions.go:226-233 | the converse fails behind an absolute link |
| `Symlink.BlankNameRefused` | internal/fs/path.go:52-78 | a name of spaces behind a dot is the key of a resolution whose chain anyone may pass, and is turned away in its turn |
| `Subtree.CollectSubtree` | internal/fs/mutate.go:394-410 | the base and all and only the stored entries below it, each once |
| `Subtree.RemapBack` | internal/fs/path.go:102-120 | remapping back undoes a remap |
| `Subtree.RemapEntries` | internal/fs/mutate.go:412-452 | remove-and-rewrite moves exactly the subtree, stamped, and leaves the rest alone |
| `Subtree.Repo.RemapTree` | internal/fs/mutate.go:412-452 | both maps are moved |
| `Subtree.Repo.RenameDir` | internal/fs/mutate.go:361-392 | refused onto a file, into itself and onto what is not empty; moves the subtree otherwise |
| `Subtree.NothingBelow` | internal/fs/mutate.go:380-387 | an empty or missing target has nothing stored under it, so no entry can collide |
| `Subtree.RenameKeepsTree` | internal/fs/mutate.go:361-392 | every parent is still stored and no path is both file and directory |
| `Subtree.RenameAllowedIff` | internal/fs/mutate.go:361-388 | allowed exactly when the target is no file, not in the source, and nothing is stored below it; which error otherwise |
| `Subtree.RenameMoves` | internal/fs/mutate.go:412-452 | a moved file is the old one but for its change time, a moved directory but for both its times; nothing else stands under the new base and nothing under the old |
| `Subtree.RenameLeaves` | internal/fs/mutate.go:389-392 | every other entry stays, but for both times of the two parents, the root among them |
| `Subtree.RenameKeepsEntries` | internal/fs/mutate.go:412-452 | every entry is still there under its remapped path with its fields, all others unchanged but for the two parents, and nothing is left behind or added |
| `Subtree.RenameBack` | internal/fs/mutate.go:361-392 | renaming back restores every name and entry, but for times |
| `Locks.SubtractLockExact` | internal/fusefs/fuse_lock.go:189-221 | what is left of a lock is exactly its bytes outside the cut, of its type |
| `Locks.LockList.SetLock` | internal/fusefs/fuse_lock.go:104-137 | the list afterwards is that of the in-place filter, backing array and growth included |
| `Locks.GrantedIff` | internal/fusefs/fuse_lock.go:104-147 | a lock is granted exactly when no other owner holds one of its bytes for writing, nor, if it is for writing, for reading; an unlock always; a refusal changes nothing |
| `Locks.GrantsAlways` | internal/fusefs/fuse_lock.go:104-147 | the same after any sequence of requests that each name some byte |
| `Locks.ExclusionKept` | internal/fusefs/fuse_lock.go:104-147 | a request keeps owners exclusive, on damaged lists too |
| `Locks.ExclusionAlways` | internal/fusefs/fuse_lock.go:104-147 | after any sequence of requests no two owners hold overlapping records unless both are read locks |
| `Locks.RunExact` | internal/fusefs/fuse_lock.go:104-137 | a sequence without inner splits leaves each owner, at each byte, exactly what it was last granted there |
| `Locks.Serve` | internal/fusefs/fuse_lock.go:104-137 | the list of an inode, serving requests one by one, answers and ends as the sequence says |
| `Locks.SharedExactIff` | internal/fusefs/fuse_lock.go:107-116 | the in-place filter equals the pure one exactly when no record but the last is split |
| `Locks.InnerSplitDamages` | internal/fusefs/fuse_lock.go:107-116 | after an inner split each later record is replaced by the right piece |
| `Locks.SetLockExact` | internal/fusefs/fuse_lock.go:104-137 | without an inner split exactly the requested bytes of the requesting owner change |
| `Locks.OwnDisjointKept` | internal/fusefs/fuse_lock.go:125-136 | between inner splits an owner's records stay disjoint |
| `Locks.ReleaseIsExact` | internal/fusefs/fuse_lock.go:159-171 | closing a handle drops exactly the owner's records |
| `Locks.LostLockExample` | internal/fusefs/fuse_lock.go:107-116 | a lock nobody released is gone, and another owner is granted its bytes |
| `Governor.Governor.Reserve` | internal/github/ratelimit.go:410-440 | admits exactly what fits the hour, the pace and the windows; how long anything else waits, or that it is refused; what an admission accounts for; the hourly reserve is never reached before the reset |
| `Governor.Governor.LongestWait` | internal/github/ratelimit.go:410-440 | refused exactly when one of the three waits is too long, otherwise the longest of them |
| `Governor.Governor.HourlyWait` | internal/github/ratelimit.go:460-476 | no wait exactly above the reserve; otherwise to a second past the reset, refused exactly when the reset is too far off |
| `Governor.Governor.PacingWait` | internal/github/ratelimit.go:478-519 | the refilled balance; no wait exactly when it suffices; how long otherwise, and when that is refused |
| `Governor.BalanceIs` | internal/github/ratelimit.go:498-504 | what was left and what has refilled since, or the burst pool if that is less |
| `Governor.RefillIs` | internal/github/ratelimit.go:489-497 | the refill spends what is above the reserve exactly until the reset |
| `Governor.PaceNanosIs` | internal/github/ratelimit.go:505-513 | the wait for the pace makes up for what is missing, to the nanosecond |
| `Governor.Governor.WindowWait` | internal/github/ratelimit.go:521-551 | the rollover; no wait exactly when points and content fit; otherwise to the end of the window, refused exactly when that is too far off |
| `Governor.Governor.Rollback` | internal/github/ratelimit.go:387-408 | what each counter is afterwards, never below zero or above the limit; what it does to the ledger of the window |
| `Governor.Governor.Observe` | internal/github/ratelimit.go:572-614 | the reset never moves back, and what is left of a window never grows |
| `Governor.Governor.TakeSlot` | internal/github/ratelimit.go:296-342 | a read finds a slot at once unless reads already hold their share |
| `Governor.TinyWindowAdmitsIff` | internal/github/ratelimit.go:209-227 | a fresh window has room for one content request exactly from six points up |
| `Governor.UploadAfterOneWait` | internal/github/ratelimit.go:263-295 | an upload is refused or needs one wait |
| `Governor.Run` | internal/github/ratelimit.go:95-105 | over any run of requests, rollbacks, headers and slots under any clock the counters stay in bounds, the read share of the window and the reserve of the hour stay free, and overspending is bounded by crossed rollbacks |
| `Governor.ReactToEnter` | internal/github/ratelimit.go:296-342 | in any such run a read finds a slot at once unless reads already hold their share |
| `Governor.CrossedRollbackOverspends` | internal/github/ratelimit.go:387-408 | ten points admitted in a window of six |
| `OpRelease.EveryRunKeeps` | internal/fusefs/fuse.go:246-353 | in every reachable state no wake-up is lost and no channel is closed twice |
| `OpRelease.CountedNext` | internal/fusefs/fuse.go:258-266 | a release that skips the swap saw nobody who could be parked |
| `OpRelease.NobodySleepsForever` | internal/fusefs/fuse.go:288-296 | when every committer has finished, a parked waiter can wake |
| `SlotWake.NoLostSlot` | internal/github/ratelimit.go:303-385 | a waiter parked on an open channel means the cap is reached, and the next free slot closes its channel |

## Left out

Weaker than the source, or on fewer inputs:

- SharedWalk.RemoveInPlace: spans that split are not modelled, because the planned spans are the listed ones.
- SharedWalk.ConsumePlanned: the walk is modelled for the list consuming itself, which is how the commit calls it.
- OverlayRuns.Run: failures of local file reads and writes are not modelled; they are taken to succeed.
- Governor.Governor.PacingWait: real arithmetic, because rounding of floats is not the point; durations are truncated as in the source.
- Playlist.ReadFileAt: chunk lists out of order or overlapping are not covered, because the store keeps them sorted.
- DerivedIndex.Repo.Clone: chunk and release maps, counters and the serialized-size sections are not copied, because no index reads them.
- Subtree.Repo.RenameDir: sticky-bit and permission checks before the move are not modelled.

Not modelled:

- The fate of each request, the local file system's answer to a reservation of space, and the clock: inputs.
- JSON and sha256: parameters of the codec, assumed inverse and without collisions.
- Splitting and cleaning path strings: paths are lists of components, entry names are single components; keys of the derived index are clean strings.
- 64-bit overflow, except in `Playlist`, the overlay's allocation guard and the lock offsets.
- Waiting, sleeping, jitter, contexts and cancellation, except as steps of the two wake-up protocols.
- The tail of a load (statistics, counter reconciliation, migration of old timestamps).
- Pending metadata patches, privilege bits, kernel notifications, quarantine and restart recovery, and the poisoning they cause, except that a poisoned overlay refuses operations.
- Downloading a base snapshot, inode and path bookkeeping, statfs, access times.
- File rename, copy of files and directories, and hard-link verbs: the same maps, easier claims.
- The playlist rebuilds of the storage layer: the hub verbs are stated by their effect on the content.
- Liveness of blocking locks: a granted blocking lock broadcasts nothing; exclusion only.
- `sort` of the standard library: modelled as insertion sort.
- Command line, configuration, HTTP transport, REST and web front ends.
