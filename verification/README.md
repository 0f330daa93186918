# rsdb, verified

A Dafny model of rsdb's remote transfer machinery: the frame protocol between the `rsdb` client and the `rsdbd`
daemon, batch transfers of directory forests in both directions, the agent's staged and verified pushes, and the
smaller state machines around them. Verify it with `dafny verify dfyconfig.toml`.

## How the modules build on each other

- `Base`, `Frames`, `Paths`, `Trees`, `FileSystem`, `FileOps`: bytes and frames, path texts and names, file trees and
  their sorted walk, and a file system as a map from component lists to nodes with the system calls the programs make.
- `Manifest`, `Decompose`: how a forest becomes roots, entries and files, and how a manifest is cut into single roots.
- `Overlay`, `Receiver`, `Slices`, `Roots`, `Unpack`: the receiving side. The loops of the source are methods over a
  `Disk` and a `Reader`; they are proved equal to functions, and those functions equal to a specification by slices of
  the payload and by an overlay of nodes.
- `Sender`, `Delivery`, `Forest`, `Transfer`, `Pull`, `PullTheorems`, `CutPulls`, `Push`, `PushOverWire`: the sending
  side behind its buffer, and both sides put together over the bytes of the connection.
- `DiskToDisk`: the same transfers from one file system to another, told path by path.
- `Filling`, `Misreadings`: what a receiver makes of a transfer that breaks off, first on block lengths alone, then over
  the bytes that had left the sender's buffer.
- `Listing`, `States`, `Staging`, `StagedPush`, `StagedTheorems`, `StagedOutcomes`, `Verification`, `SecondPush`,
  `PullVerification`, `AgentPush`, `AgentOutcomes`: listings, the two state collectors and their comparison, and the
  agent commands with each of their options.
- `Mux`, `ShellClient`: the output multiplexer of streamed commands and pipe shells, and the shell client, as state
  machines over every interleaving.
- `Codecs`: message codecs written out, so that what the theorems above ask of a codec can be met.
- `ShellWords`, `FsWrite`, `GuardedWrite`, `TargetRegistry`: shell quoting, guarded and atomic writes, saved targets.

What the environment decides is a parameter: what file reads return and in which blocks, at which byte a connection is
lost, which requests and replies get through, in what order directories are read, what each `select` finds ready,
where a write fails. Theorems quantify over all of it.

## Where the code does not keep what one would expect

- Repeating an `--if-changed` push, or verifying a pull, looks one level too deep when the transfer itself created the
  directory it was given as destination (`Verification.SecondPushSkipsIff`, `PullVerification.PullVerifiesIff`): the
  push puts a second copy inside the first (`SecondPush.NestedSecondPush`), the verification of a good pull fails. For
  a staged push the case includes a destination that was a file.
- `fs.move` with overwrite removes the destination before it knows that the rename can work. On one file system
  it fails with the destination gone exactly when source and destination both exist and one is the other or lies in it
  (`FileOps.MoveFailsWithLossIff`); moving a path onto itself loses it (`FileOps.SelfMoveLosesTree`), and overwriting
  the root directory empties it.
- When streaming breaks off at a missing or changed file, the buffered writer is dropped unflushed: what arrives is what
  had left the buffer, nothing at all if the whole run fits it, and never all of it (`Misreadings.NothingLeavesIff`,
  `Misreadings.LastFrameIsLost`).
- Surplus bytes of a file that grew may then be taken as a later file's. With j the first missing or changed file, that
  happens exactly when, among the blocks that are read, the first few of file j fill its manifest size, another one
  follows, and the next file of non-zero size has room for that block; the blocks that are read are those that had left
  the buffer, and in a pull perhaps one more in whose place the error response is read (`Misreadings.PushSpillsIff`,
  `Misreadings.PullSpillsIff`, and `Misreadings.FullBlocksSpill` for a run that does it). The transfer fails all the
  same, but what was written so far stays.
- In a pull the error response follows the dropped buffer, possibly in the middle of a frame. Bytes of it get into a file
  exactly when the buffer left a header without its block, the response is at least as long as that block, and the files
  have room for every block up to it (`Misreadings.ErrorWrittenIff`; `Misreadings.ErrorTakesBlock` shows runs that do).
  The client still never reports success (`CutPulls.FailedPullNeverReported`).
- Root names are compared as texts and not checked for components. Different names may lead to one path, exactly when
  they append the same components (`Roots.NamesMeetIff`, with `Roots.DifferentNamesMeet` as the smallest case), and a
  name leads directly below every destination only if it is one normal component (`Roots.NameAlwaysBelowIff`). Names of
  directory entries, which is what this repository sends, are free of both (`Roots.EntryNamesMeetIff`).
- A command whose name is a reserved word, or has the form of an assignment, is joined without quotes, and a shell does
  not run it as a command (`ShellWords.CommandRunsIff`).
- Root prediction accepts an empty root list that the daemon refuses (`Roots.PredictionMatchesDaemon`).
- A recursive listing limited to depth 0 still shows depth 1 (`Listing.CollectFsEntries`).
- Disconnecting a target whose name equals the current target's address moves the current target
  (`TargetRegistry.DisconnectExact`).
- The clean-up after a refused atomic write removes a file that already stood at the temporary path, and `fs.write`
  makes parent directories before it looks at its guards (`FsWrite.WriteAtomic`, `GuardedWrite.HandleFsWrite`).

## Model

| member | source | states |
|---|---|---|
| `Frames.Encode` | crates/rsdb-proto/src/lib.rs:68-78 | fills the 24-byte header array field by field; the array is the specified little-endian header |
| `Frames.HeaderLayout` | crates/rsdb-proto/src/lib.rs:68-78 | every one of a header's 24 bytes, in numbers: the magic, the version, the kind's code, and flags, request id and length with the low byte first |
| `Frames.HeaderRoundTrip` | crates/rsdb-proto/src/lib.rs:68-110 | decoding an encoded header of the current version and a legal payload length gives the header back |
| `Frames.DecodeAccepts` | crates/rsdb-proto/src/lib.rs:80-110 | 24 bytes decode to a header exactly when they carry the magic, this version, a known kind and a legal length, whatever the reserved last word holds, and then the header's fields are those bytes' |
| `Frames.StreamFlagBits` | crates/rsdb-proto/src/lib.rs:657-672 | for any flags word the channel is its low byte and EOF its bit 31; all other bits are ignored |
| `Frames.StreamFlagsExact` | crates/rsdb-proto/src/lib.rs:612-616 | a stream frame's flags are its channel's number, and bit 31 for EOF |
| `Frames.StreamHeaderRoundTrip` | crates/rsdb-proto/src/lib.rs:600-630 | request id, channel and EOF bit of a stream frame are read back as written |
| `Frames.ReadAllWire` | crates/rsdb-proto/src/lib.rs:493-542 | any run of written frames reads back as the same frames, whatever follows |
| `Frames.ReadAllCut` | crates/rsdb-proto/src/lib.rs:519-542 | a stream cut after any number of bytes yields exactly the frames that are whole, then the end-of-file error |
| `Frames.WholeFramesFit` | crates/rsdb-proto/src/lib.rs:519-542 | how many frames are whole after n bytes: those fit, the next one does not |
| `Frames.WriteFrame` | crates/rsdb-proto/src/lib.rs:493-517 | appends the encoded frame to what was written, or refuses an oversized payload and writes nothing; what a buffered writer has passed on ends at a write boundary |
| `Frames.WriteStreamFrame` | crates/rsdb-proto/src/lib.rs:600-630 | the same for stream frames, with channel and EOF packed into the flags |
| `Frames.ReadFrameInto` | crates/rsdb-proto/src/lib.rs:528-542 | whatever the reused buffer held, the result, the payload and the rest of the input are those of reading a frame afresh |
| `Paths.JoinTransferRelativePath` | crates/rsdb-cli/src/main.rs:4378-4391 | a received relative path is accepted exactly when all its components are normal, and then they are appended to the base |
| `Paths.JoinAcceptsIff` | crates/rsdb-cli/src/main.rs:4378-4391 | on the text itself: accepted exactly when there is no slash in front, no dot in front and no dot-dot between its slashes; then the parts other than empty ones and dots are appended |
| `Paths.SplitIsSlashed` | crates/rsdb-cli/src/main.rs:4378-4391 | putting the slashes back between the parts gives the text again |
| `Paths.JoinPathText` | device/rsdbd/src/main.rs:2156-2212 | joining the printed form of any list of names appends exactly that list |
| `Paths.PathTextInjective` | crates/rsdb-cli/src/main.rs:4422-4435 | no two component lists print alike |
| `Paths.JoinStaysBelow` | device/rsdbd/src/main.rs:2156-2169 | every accepted path keeps the base as a prefix and has one name per component; a rejected one has a root, dot or dot-dot component |
| `Paths.NameLessIff` | device/rsdbd/src/main.rs:1940-1975 | the order of names: they agree up to a place where the first ends or has the smaller character |
| `Paths.PathLessIff` | device/rsdbd/src/main.rs:1940-1975 | the order of paths: they agree up to a place where the first ends or has the smaller name |
| `Trees.CanonLookup` | device/rsdbd/src/main.rs:1940-1975 | sorting a directory's children changes what no path leads to |
| `Trees.WalkSorted` | device/rsdbd/src/main.rs:1921-1995 | the walk of a sorted tree visits paths in strictly increasing order |
| `Trees.WalkComplete` | device/rsdbd/src/main.rs:1921-1995 | every path of the tree is visited |
| `Trees.WalkSound` | device/rsdbd/src/main.rs:1921-1995 | every visited path leads to the visited node |
| `Trees.WalkParentFirst` | device/rsdbd/src/main.rs:1921-1995 | the directory holding a visited path is visited earlier |
| `FileSystem.MkdirAllExact` | device/rsdbd/src/main.rs:1705-1715 | creating a directory path fails exactly on a file in the way; otherwise exactly the missing prefixes become default directories |
| `FileSystem.UnmaskExact` | device/rsdbd/src/main.rs:1705-1715 | a new node's mode is the one asked for without exactly the umask's bits, bit by bit |
| `FileSystem.DirDefaultExact` | device/rsdbd/src/main.rs:1705-1715 | a new directory has the bits of 0o777 that are not in the umask |
| `FileSystem.TreeAtHolds` | device/rsdbd/src/main.rs:1308-1354 | every existing path of a well-formed file system holds exactly one valid tree |
| `FileOps.FsRm` | device/rsdbd/src/main.rs:1104-1158 | the removal handler with any flags, step by step on the disk, is its specification |
| `FileOps.RmExact` | device/rsdbd/src/main.rs:1104-1158 | for every path, the root directory included, and every flag combination: when a removal succeeds, that then nothing is left at or below the path and all else is as before, and that a failed one changes nothing but the root directory, which it may empty |
| `FileOps.FsMove` | device/rsdbd/src/main.rs:1160-1209 | the move handler, step by step on the disk, is its specification |
| `FileOps.MoveExact` | device/rsdbd/src/main.rs:1160-1209 | a move succeeds exactly when neither path lies in the other, the destination has a directory to go to and an existing destination may be overwritten; then the subtree stands there, is gone from the source, and nothing else changed |
| `FileOps.MoveFailsWithLossIff` | device/rsdbd/src/main.rs:1190-1209 | for all arguments, a move fails and has changed something exactly when it is to overwrite an existing destination that is the source itself, lies in it or holds it; then everything at and below the destination is gone, and of the root directory everything in it |
| `FileOps.MoveKeepsWellFormed` | device/rsdbd/src/main.rs:1160-1209 | whatever a move does, also onto the root directory, every path left has its parent directory |
| `FileOps.SelfMoveLosesTree` | device/rsdbd/src/main.rs:1190-1209 | moving a path onto itself with overwrite fails and loses the tree |
| `Manifest.AppendManifestEntry` | device/rsdbd/src/main.rs:1921-1995 | the recursive walk appends exactly the tally of the sorted preorder to the entries, the files and the byte total |
| `Manifest.EnsureUniqueRootNames` | device/rsdbd/src/main.rs:2171-2182 | succeeds exactly when no root name repeats; otherwise names the first repeat |
| `Manifest.BuildBatchManifest` | crates/rsdb-cli/src/main.rs:3923-3974 | succeeds exactly when the root names are distinct, with the manifest of the forest |
| `Manifest.ForestShape` | device/rsdbd/src/main.rs:1837-1995 | the entries of a forest are strictly increasing in root and path, each after its parent directory; the files are the file entries, with their contents' lengths, and the bytes their sum |
| `Manifest.ForestManifestWellFormed` | crates/rsdb-cli/src/main.rs:3923-4080 | every manifest built from a forest is well formed; among others, its k-th file is named by its root's source path and the path of the k-th file entry |
| `Manifest.ForestRootsExact` | crates/rsdb-cli/src/main.rs:3923-3974 | its sources and roots are those of the forest: paths, names, kinds and modes |
| `Decompose.FilterBatchManifest` | crates/rsdb-cli/src/main.rs:4082-4140 | the filtered manifest has the chosen roots in order, their entries and files under their new indexes, and the bytes of those files; it fails exactly on an index out of range |
| `Decompose.RemapExact` | crates/rsdb-cli/src/main.rs:4082-4140 | exactly the chosen roots are remapped, each to the last position it was chosen at |
| `Decompose.FilterExact` | crates/rsdb-cli/src/main.rs:4082-4140 | exactly the elements of chosen roots are kept, in order, each with its new index |
| `Decompose.ManifestDecomposition` | crates/rsdb-cli/src/main.rs:4082-4140 | the single-root manifests of a well-formed manifest are well formed, file names included, put back together they are the original, and their entry and byte counts add up to it |
| `Decompose.SingleRootIsForest` | crates/rsdb-cli/src/main.rs:4082-4140 | filtering a forest's manifest by one root gives the manifest of that source alone |
| `Overlay.ApplyItemExact` | device/rsdbd/src/main.rs:1700-1775 | applying one entry succeeds exactly when nothing is in its way, and leaves its node, missing directories above it and everything else as it was |
| `Overlay.ModeAfterExact` | device/rsdbd/src/main.rs:1700-1775 | which mode an entry leaves, in octal: the bits it carries, 0o644 for a file on the daemon that carries none of them, the mode already there if it carries no mode, and otherwise 0o644 or 0o777 without the umask's bits |
| `Overlay.ApplyItemsSucceeds` | device/rsdbd/src/main.rs:1700-1775 | a well-ordered entry list applies exactly when no entry, judged by the file system before, meets an obstacle |
| `Overlay.ApplyItemsOverlay` | device/rsdbd/src/main.rs:1700-1775 | and then every path holds what the overlay says |
| `Receiver.ReadFileChunk` | device/rsdbd/src/main.rs:2050-2077 | one stream frame with the right request id and channel, into the reused buffer |
| `Receiver.ChunkExact` | device/rsdbd/src/main.rs:2050-2077 | a frame is a chunk exactly when it is a stream frame of this request with channel number 1; bit 31 of its flags is EOF |
| `Receiver.ExpectFileStreamEof` | device/rsdbd/src/main.rs:2079-2093 | accepts exactly one empty EOF frame |
| `Receiver.EofExact` | device/rsdbd/src/main.rs:2079-2093 | the closing frame on the bits of its header: this request, channel number 1, bit 31, no payload |
| `Receiver.FillFile` | device/rsdbd/src/main.rs:1738-1760 | the loop over `remaining`, which ends because each frame uses up input: the file, the stream position and the error are those of the specification |
| `Receiver.ReceiveBatchInto` | device/rsdbd/src/main.rs:1695-1797 | the entry loop and the closing EOF leave the disk, the stream and the result of the specification |
| `Slices.DataIsSegment` | device/rsdbd/src/main.rs:1738-1760 | a file's data is accepted exactly when the frames form a segment of its size - file frames of this request, none of them EOF, the last one not empty - and then it is their payload |
| `Slices.ContentsAreSlices` | crates/rsdb-cli/src/main.rs:4213-4275 | the files read are consecutive slices of the whole payload, at the prefix sums of their sizes |
| `Slices.ReceiveFactors` | crates/rsdb-cli/src/main.rs:4213-4275 | the interleaved loop succeeds exactly when all contents can be read and then all entries applied, with that file system and that byte count |
| `Unpack.ReceiverRefinement` | device/rsdbd/src/main.rs:1678-1797 | on any incoming frames and any good entries the receiver completes exactly when the frames split into the files' segments and one empty EOF frame and nothing on disk is in the way; then every path holds what the overlay of those contents says |
| `Unpack.OutputPathsDiffer` | device/rsdbd/src/main.rs:2149-2182 | distinct entries of a well-formed manifest with separate roots go to distinct paths |
| `Unpack.OutputPathAbove` | device/rsdbd/src/main.rs:2149-2182 | what holds another entry's path is an earlier directory entry |
| `Unpack.BatchTouchesRoots` | device/rsdbd/src/main.rs:1678-1797 | on any stream and any manifest, only paths at or below the roots change and directories toward them appear |
| `Sender.StreamSucceedsIffUnchanged` | device/rsdbd/src/main.rs:1997-2048 | streaming succeeds exactly when every file yielded its manifest size - differences that cancel do not pass - and then the total is the manifest's |
| `Sender.StreamedFrames` | crates/rsdb-cli/src/main.rs:4142-4195 | every frame streamed is a non-empty, non-EOF file chunk of this request |
| `Sender.StreamBatchFiles` | device/rsdbd/src/main.rs:1997-2048 | the streaming loop, which opens each file by its manifest path, over a buffered writer: on success all frames are on the connection; on failure exactly what had left the buffer by then, which the block lengths determine |
| `Sender.PassedOnIsBoundary` | device/rsdbd/src/main.rs:2005-2046 | what has left the buffer ends between two frames or behind a frame header |
| `Delivery.StreamedIsRead` | crates/rsdb-cli/src/main.rs:4142-4195 | streamed files, wherever they occur in an incoming stream, are read back with exactly their bytes, using up exactly their frames |
| `Forest.ForestManifestItems` | device/rsdbd/src/main.rs:1837-1995 | a forest's manifest entries, resolved and filled with the forest's contents, are the forest's nodes at their output paths |
| `Forest.ClearWayIsCompatible` | device/rsdbd/src/main.rs:1695-1797 | nothing is in the way of the entries exactly when no file stands above a root and no node meets one of the other kind |
| `Forest.OverlayIsLaidOver` | device/rsdbd/src/main.rs:1695-1797 | the overlay of a forest replaces its own nodes, keeps everything else below the roots, and elsewhere only adds directories toward them |
| `Forest.LaidOnNothing` | crates/rsdb-cli/src/main.rs:4197-4282 | where nothing was, a tree laid down is exactly that tree, as long as its modes are not zero |
| `Transfer.HandlePullBatch` | device/rsdbd/src/main.rs:1799-1835 | the pull handler succeeds exactly when root names are distinct, the metadata fits a frame and no source changed size; it then has sent metadata, files, EOF and completion, otherwise nothing, or the metadata and exactly what had left the dropped buffer |
| `Pull.ExecutePull` | crates/rsdb-cli/src/main.rs:3727-3800 | the client's pull leaves the disk, the stream and the result of its specification, on any input |
| `PullTheorems.PullRoundTrip` | crates/rsdb-cli/src/main.rs:3727-3800 | pull of an unchanged forest: it completes exactly when nothing is in its way, reports the manifest's counts, uses up exactly the sent bytes, and lays the forest over the local file system |
| `Pull.PullDoneIff` | crates/rsdb-cli/src/main.rs:3727-3800 | on any incoming frames: with metadata in front, a pull is done exactly when the roots resolve, the batch is received, and the response right behind it reports as many entries and bytes as were received |
| `Pull.NoMetadataNoPull` | crates/rsdb-cli/src/main.rs:3727-3800 | without metadata in front nothing is done and nothing changes |
| `DiskToDisk.ForestFilesHold` | device/rsdbd/src/main.rs:1989-1992 | on a file system that holds the sources, the path of the manifest's k-th file holds the k-th content |
| `DiskToDisk.DiskIsUnchanged` | device/rsdbd/src/main.rs:2010-2044 | a reader of that file system, opening the manifest's paths, yields exactly the contents the other theorems speak of |
| `DiskToDisk.PullFromDisk` | crates/rsdb-cli/src/main.rs:3727-3800 | pull from one file system to another, told in their paths: it completes exactly when no file stands above a root and nothing of the other kind stands where something is to come; then every file and directory at and below each path asked for is at its root path with its bytes and mode, what was there besides is kept, and elsewhere only missing directories are new |
| `DiskToDisk.PushFromDisk` | crates/rsdb-cli/src/main.rs:3657-3717 | the same for a push |
| `DiskToDisk.PullIntoDirectory` | crates/rsdb-cli/src/main.rs:4340-4354 | a file or directory pulled to an existing directory comes into it under its own name, and nothing else changes |
| `DiskToDisk.PushIntoDirectory` | device/rsdbd/src/main.rs:2122-2135 | a file or directory pushed to an existing directory comes into it under its own name, and nothing else changes |
| `PullTheorems.PullIsExactCopy` | crates/rsdb-cli/src/main.rs:4197-4282 | onto absent destinations every tree is rebuilt exactly: kinds, paths, modes and contents |
| `PullTheorems.EntriesCountNodes` | device/rsdbd/src/main.rs:1837-1995 | the entry count is the number of nodes of the forest |
| `PullTheorems.NoEofNeverCompletes` | crates/rsdb-cli/src/main.rs:4277-4281 | a receiver that meets no EOF frame never completes |
| `PullTheorems.NothingInsideError` | device/rsdbd/src/main.rs:2854-2870 | no frame begins inside an error response whose text has no control bytes: reading from its middle fails at once |
| `PullTheorems.FailedPullNeverCompletes` | device/rsdbd/src/main.rs:1816-1823 | when the daemon gives up on a pull, at whatever write boundary its dropped buffer cut the stream and whatever the client then makes of the error response, the client does not report completion |
| `CutPulls.CutPullNeverReported` | crates/rsdb-cli/src/main.rs:3727-3800 | a successful daemon's stream, cut anywhere before its last byte, never makes the client report success |
| `CutPulls.PullReportedIff` | crates/rsdb-cli/src/main.rs:3727-3800 | pull of an unchanged forest, cut after any number of bytes: the client reports success exactly when nothing was cut and nothing is in the forest's way |
| `CutPulls.FailedPullNeverReported` | device/rsdbd/src/main.rs:1816-1823 | nor does what a daemon that gave up has sent, cut anywhere before, within or after its error response |
| `Misreadings.WrittenIsRead` | crates/rsdb-cli/src/main.rs:4213-4275 | when nothing stops the receiver, the bytes its files get are the contents it reads |
| `Filling.BreaksOffIff` | device/rsdbd/src/main.rs:2010-2044 | a streaming run breaks off exactly when some file is the first to be missing or changed |
| `Filling.FilledIsTaken` | device/rsdbd/src/main.rs:1738-1760 | the bytes all files get from a run of blocks are, put together, exactly the blocks taken, and how many are taken depends on lengths alone |
| `Filling.SurplusLandsElsewhereIff` | device/rsdbd/src/main.rs:2010-2044 | for all sizes and reads, with j the first missing or changed file and any number q of blocks that arrive: files up to j get a beginning of their own bytes, j and later files together a beginning of file j's, and a later file gets any exactly when among the q blocks some fill file j exactly, another one arrives and the next file of non-zero size has room for it |
| `Misreadings.WrittenIsFilled` | crates/rsdb-cli/src/main.rs:4213-4275 | blocks after which no more content comes fill the receiver's files as their lengths say |
| `Misreadings.PushSpillsIff` | crates/rsdb-cli/src/main.rs:4142-4195 | a push that breaks off at file j: the daemon's files hold exactly what the blocks that had left the client's buffer fill, each a beginning of its own bytes up to j, and a later file gets bytes of file j exactly when those blocks spill over |
| `Misreadings.PullSpillsIff` | device/rsdbd/src/main.rs:1799-1835 | the same for a pull and the error response behind it, which may be read in place of one block |
| `Misreadings.ErrorWrittenIff` | crates/rsdb-cli/src/main.rs:4213-4275 | bytes of the error response get into a file exactly when the dropped buffer left a header without its block, the response is at least that long, and the files have room for all blocks up to it - all decided by the lengths of the reads; then they come after everything else written |
| `Misreadings.NothingLeavesIff` | device/rsdbd/src/main.rs:2005-2046 | a run leaves nothing on the connection exactly when it fits the buffer as a whole |
| `Misreadings.LastFrameIsLost` | device/rsdbd/src/main.rs:2005-2046 | the last frame of a broken-off run never arrives whole |
| `Misreadings.FullBlocksSpill` | crates/rsdb-cli/src/main.rs:4150-4193 | a run that does spill: a first file of one full block that yields three, a second of the same size, which gets the second block |
| `Misreadings.ErrorTakesBlock` | device/rsdbd/src/main.rs:2005-2046 | runs whose error response does get into a file: any two blocks that do not fit the buffer together while the second header still does, and a response at least as long as the second |
| `Misreadings.CutsAreThese` | device/rsdbd/src/main.rs:2003-2046 | every cut a dropped buffer can leave lies between two frames or behind a frame header |
| `Misreadings.ReadAfterCut` | device/rsdbd/src/main.rs:1816-1823 | exactly which frames are read from any such cut followed by an error response |
| `Misreadings.ErrorReadAsDataIff` | crates/rsdb-cli/src/main.rs:4213-4275 | after any cut at a write boundary the error response is taken for a chunk exactly when the cut is behind a chunk header and the error frame is at least as long as the payload that was lost |
| `Push.ServePush` | device/rsdbd/src/main.rs:1678-1797 | the push handler with the dispatcher's error response: file system, verdict and every reply on the wire, as long as the replies it sends fit a frame |
| `Push.SendPushStream` | crates/rsdb-cli/src/main.rs:3680-3692 | the client's streaming half: all frames and EOF sent exactly when no file changed size and the total is the manifest's, otherwise the exact error and exactly the bytes that had left the buffer |
| `Push.PushRoundTrip` | device/rsdbd/src/main.rs:1678-1797 | push of an unchanged forest, fully delivered: the daemon completes exactly when nothing is in its way, with the manifest's counts, and the forest lies over the remote file system, extras kept |
| `Push.CutPushNeverCompletes` | device/rsdbd/src/main.rs:1780-1797 | unless the client's stream was complete and arrived to its last byte, the daemon does not complete |
| `Push.ChangedSourceNeverCompletes` | crates/rsdb-cli/src/main.rs:4155-4188 | if any file's byte count differs from its manifest entry, the daemon does not complete |
| `Push.PushTouchesRoots` | device/rsdbd/src/main.rs:1678-1797 | whatever happens to a push, only paths at or below the resolved roots change |
| `PushOverWire.ExecutePushManifest` | crates/rsdb-cli/src/main.rs:3673-3717 | the client reads PushBatchReady and PushBatchComplete off the wire and streams in between; on any input its verdict is the specified one, and what it sends is nothing, the whole stream, or what had left the dropped buffer |
| `PushOverWire.PushVerdictIff` | crates/rsdb-cli/src/main.rs:3673-3717 | whatever replies arrive, the client reports success exactly when the first is PushBatchReady, it streamed everything, and the second is PushBatchComplete with as many bytes as the manifest |
| `PushOverWire.RepliesArrive` | crates/rsdb-proto/src/lib.rs:519-542 | of replies cut after any number of bytes the client reads the first few exactly as sent, and all of them only if nothing was cut |
| `PushOverWire.PushReportedIff` | crates/rsdb-cli/src/main.rs:3673-3717 | wherever the stream and the replies are cut, the verdict read off the wire is success exactly when the stream arrived in full, the daemon completed and all replies came back, and then it carries the daemon's counts |
| `PushOverWire.RoundTripOverWire` | crates/rsdb-cli/src/main.rs:3657-3717 | push of an unchanged forest with nothing cut: the client reports success exactly when nothing is in the forest's way, client and daemon report the manifest's counts, and the forest lies over the remote file system |
| `PushOverWire.FailedPushNeverReported` | crates/rsdb-cli/src/main.rs:3673-3717 | when the daemon failed, no cut of its replies is read as success |
| `PushOverWire.CutPushNeverReported` | device/rsdbd/src/main.rs:1780-1797 | unless the stream was complete and arrived to its last byte, the daemon does not complete and the client, reading its replies cut anywhere, reports no success |
| `PushOverWire.ChangedSourceNeverReported` | crates/rsdb-cli/src/main.rs:4155-4188 | if any file's byte count differs from its manifest entry, neither end reports completion |
| `Roots.OneRootResolves` | device/rsdbd/src/main.rs:2122-2135 | one root, a file or a directory, goes to destination/name exactly when the destination can be looked at and is a directory or has a trailing slash, to the destination itself exactly when it can be looked at and neither holds, and is refused exactly when it cannot - on the daemon, in the prediction and in a pull alike |
| `Roots.ManyRootsResolve` | crates/rsdb-cli/src/main.rs:4355-4369 | several roots go to destination/name each, unless a name repeats, the destination cannot be looked at, or it is a file - with the error of each case |
| `Roots.NothingResolves` | device/rsdbd/src/main.rs:2095-2121 | the errors for no roots and for no destination |
| `Roots.PredictionMatchesDaemon` | crates/rsdb-cli/src/main.rs:2415-2449 | the client's predicted roots are the daemon's, or both refuse - except that only the daemon refuses an empty root list |
| `Roots.ResolvedRootsAreSeparate` | device/rsdbd/src/main.rs:2095-2147 | resolved roots lie side by side, each the destination or directly below it, none in another |
| `Roots.DaemonAndLocalAgree` | crates/rsdb-cli/src/main.rs:4320-4369 | the daemon's resolution and the pulling client's are the same function of file system, destination and roots |
| `Roots.NameAlwaysBelowIff` | device/rsdbd/src/main.rs:2095-2147 | a received root name, any string, leads directly below every destination exactly when, dots aside, it is one normal component: not absolute, not dot-dot, not several |
| `Roots.OneComponentIff` | device/rsdbd/src/main.rs:2095-2147 | such a name on its text: no slash in front, no dot-dot between its slashes, and one part that names something |
| `Roots.RelativeNameBelowIff` | crates/rsdb-cli/src/main.rs:4348-4369 | for a name that is not absolute the same holds at each destination |
| `Roots.NamesAreOneComponent` | device/rsdbd/src/main.rs:1837-1919 | every name that a directory entry can have is such a component, and resolves as the roots of the other theorems do |
| `Roots.NamesMeetIff` | device/rsdbd/src/main.rs:2095-2147 | two received names of any form lead to one path exactly when they append the same components, an absolute one being its own path |
| `Roots.MeetSomewhereIff` | device/rsdbd/src/main.rs:2095-2147 | an absolute and a relative name meet at some destination exactly when the absolute one ends in what the relative one appends |
| `Roots.EntryNamesMeetIff` | device/rsdbd/src/main.rs:2171-2182 | names that directory entries can have meet only if they are the same text, so for them the uniqueness check suffices |
| `Roots.RelativeRootsApartIff` | device/rsdbd/src/main.rs:2095-2147 | any list of relative names leads to separate roots exactly when no name's components begin another's |
| `Roots.RootsApartIff` | device/rsdbd/src/main.rs:2095-2147 | names that are one normal component each lead to separate roots exactly when these components are pairwise different |
| `Roots.DifferentNamesMeet` | device/rsdbd/src/main.rs:2171-2182 | the witness that different texts do not suffice: a and a/ lead to one path, whatever the destination |
| `Listing.CollectFsEntries` | device/rsdbd/src/main.rs:1308-1354 | the pruned recursive listing is the full sorted preorder filtered: hidden names anywhere below the root only if asked for, depth 1 unless recursive, and at most the larger of 1 and the limit |
| `Listing.BlockingFsList` | device/rsdbd/src/main.rs:1261-1287 | a file lists as itself, a directory as what the filter shows |
| `Listing.ListedExact` | device/rsdbd/src/main.rs:1308-1354 | a listing shows exactly the tree's own nodes that are neither hidden nor too deep, in strictly increasing path order |
| `Listing.ListingTold` | device/rsdbd/src/main.rs:1261-1370 | a whole listing in plain terms: a file lists as itself; a directory has one entry for exactly those paths below it with no name starting with a dot, unless hidden ones are included, and either directly below or, if recursive, within the limit; each entry with path, kind, length and digest; in order |
| `States.CollectLocalState` | crates/rsdb-cli/src/main.rs:2587-2640 | the recursive collector's map has exactly the texts of the tree's paths, each with its node's kind, size and digest |
| `States.CollectRemoteState` | crates/rsdb-cli/src/main.rs:2642-2676 | stat, full listing and prefix stripping give the same map for a remote tree, none for an absent one, an error below a file |
| `States.CollectorsAgree` | crates/rsdb-cli/src/main.rs:2587-2676 | the two collectors give equal maps on equal trees, whatever order directories are read in |
| `States.MatchIsPartialOrder` | crates/rsdb-cli/src/main.rs:2678-2693 | the match relation is reflexive, transitive and antisymmetric on state maps |
| `States.MatchIsContainment` | crates/rsdb-cli/src/main.rs:2678-2693 | with an injective hash, collected states match exactly when the actual tree contains the expected one: same kinds and contents, extras allowed |
| `States.UnhashedMatchIsSizes` | crates/rsdb-cli/src/main.rs:2678-2693 | without hashes they match exactly when it does so up to file sizes |
| `Staging.StagedPathIsSibling` | crates/rsdb-cli/src/main.rs:2571-2585 | the staging path lies beside the final path, never at, above or below it |
| `Staging.StagedPathsDiffer` | crates/rsdb-cli/src/main.rs:2571-2585 | it is hidden, and two staging paths are the same only for the same final path, nonce and index |
| `Staging.UploadExact` | crates/rsdb-cli/src/main.rs:2205-2229 | uploading to a path that does not exist succeeds exactly when no file stands above it and the exchange came through; then a copy stands there, and otherwise at most directories above are new |
| `Staging.MoveIntoPlace` | crates/rsdb-cli/src/main.rs:2231-2236 | the move of a finished upload always works: a copy replaces whatever stood at the final path, nothing is left at the staging path |
| `StagedPush.RemoteUnchanged` | crates/rsdb-cli/src/main.rs:2176-2195 | the probe answers whether the remote tree's state matches the local one's, and fails exactly below a file |
| `StagedPush.RunStagedPush` | crates/rsdb-cli/src/main.rs:2166-2244 | the loop over the roots with its counters: file system, results up to the first failure, and the summary |
| `StagedTheorems.RootStep` | crates/rsdb-cli/src/main.rs:2170-2243 | one root: when exactly it is skipped, when uploaded, what it reports, and what it does to the file system in every case |
| `StagedTheorems.RunEffectHolds` | crates/rsdb-cli/src/main.rs:2166-2244 | a whole run, whatever fails: each root is an exact copy or as before, and elsewhere at most directories are new |
| `StagedOutcomes.StagedPushLeaves` | crates/rsdb-cli/src/main.rs:2166-2244 | unless a clean-up request was lost, no staging path is left and every root is an exact copy of its source or as it was |
| `StagedOutcomes.StagedPushReplaces` | crates/rsdb-cli/src/main.rs:2166-2244 | on success every uploaded root is exactly a copy of its source, extras gone, modes too unless one is zero, and every skipped one matched and is untouched |
| `StagedOutcomes.UploadErrorLeaves` | crates/rsdb-cli/src/main.rs:2205-2229 | an upload error at root i, cleaned up: roots before i are replaced or untouched if skipped, i and later ones untouched, no staging path left |
| `StagedOutcomes.StagedPushSucceedsIff` | crates/rsdb-cli/src/main.rs:2166-2244 | it succeeds exactly when each root, judged by the remote state before the push, has no file above it and is unchanged or fully delivered and moved |
| `StagedOutcomes.StagedTotals` | crates/rsdb-cli/src/main.rs:2240-2242 | with no skips it reports the totals of the whole manifest, as a direct push does |
| `StagedOutcomes.ResolvedRootsAreSiblings` | crates/rsdb-cli/src/main.rs:2415-2449 | wherever roots resolve to, they stand side by side in one directory, and none is the root directory |
| `Verification.DirectPushVerifies` | crates/rsdb-cli/src/main.rs:2120-2155 | after a direct push every root matches, with and without hashes, whatever extras the remote directory holds |
| `Verification.StagedPushVerifies` | crates/rsdb-cli/src/main.rs:2246-2280 | after a staged push every root matches, uploaded or skipped |
| `Verification.RootsResolveAgain` | crates/rsdb-cli/src/main.rs:2415-2449 | resolving the same destination after the transfer gives the same roots exactly when the transfer was not of one directory to a path that was no directory, without trailing slash; otherwise it is one level deeper |
| `Verification.SecondPushSkipsIff` | crates/rsdb-cli/src/main.rs:2176-2195 | repeating a successful if-changed push with nothing changed skips everything, writes 0 entries and 0 bytes and changes nothing - exactly when not in that case |
| `SecondPush.NestedSecondPush` | crates/rsdb-cli/src/main.rs:2166-2244 | in that case, with nothing lost on the network, the second run resolves its root one level deeper and uploads it: a second copy stands inside the first, the first copy is still around it, and nothing else changed |
| `SecondPush.NestingHappens` | crates/rsdb-cli/src/main.rs:2415-2449 | the case does occur: wherever a destination is absent, an empty directory pushed there twice is such a pair of runs |
| `Verification.NestedNeverMatches` | crates/rsdb-cli/src/main.rs:2678-2693 | a transferred tree never matches the same tree one level deeper, because no tree contains itself |
| `PullVerification.ExpectedTransferState` | crates/rsdb-cli/src/main.rs:2715-2734 | the expected state built from the entries of one root |
| `PullVerification.ExpectedIsSummary` | crates/rsdb-cli/src/main.rs:2715-2734 | for a forest's manifest it is the source tree's own state, kinds and sizes |
| `PullVerification.VerifyLocalPull` | crates/rsdb-cli/src/main.rs:2695-2713 | answers whether, resolving the destination again, every root's local tree matches the manifest |
| `PullVerification.PullVerifiesIff` | crates/rsdb-cli/src/main.rs:2695-2713 | after a complete pull the re-resolved roots are the paths written, and verification by size or by hash succeeds, exactly when the pull was not of one directory to an absent path without trailing slash |
| `PullVerification.CompletedPullVerifiesIff` | crates/rsdb-cli/src/main.rs:2291-2343 | the same for every complete pull over the wire |
| `AgentPush.RunAgentTransferPush` | crates/rsdb-cli/src/main.rs:2084-2289 | the whole command: walk, root prediction, direct or staged transfer, verification, summary |
| `AgentOutcomes.StagingCommandLeaves` | crates/rsdb-cli/src/main.rs:2166-2244 | with atomic or if-changed set, a successful command leaves every root exactly a copy of its source, extras gone, or with if-changed a matching root untouched, and changes nothing else but missing directories; with atomic alone nothing is skipped; when it fails every root is a copy or as it was; it reports skipped only if nothing changed and all matched |
| `AgentOutcomes.AtomicCommandCounts` | crates/rsdb-cli/src/main.rs:2240-2288 | with atomic alone it reports the whole manifest |
| `AgentOutcomes.PlainCommandLays` | crates/rsdb-cli/src/main.rs:2109-2163 | with neither set, a successful command leaves the forest laid over what was there, extras kept, and however it ends it touches only the roots |
| `AgentOutcomes.StagingIntoDirectory` | crates/rsdb-cli/src/main.rs:2415-2449 | an atomic push of one file or directory to an existing directory puts the copy into it under its name and leaves everything else as it was |
| `AgentOutcomes.VerifiedMeans` | crates/rsdb-cli/src/main.rs:2246-2280 | a command that was to verify succeeds only if every root matched afterwards, with or without hashes as asked |
| `AgentPush.DirectCommand` | crates/rsdb-cli/src/main.rs:2109-2163 | a direct push command with unchanged sources succeeds exactly when nothing is in its way; verification never fails it |
| `AgentPush.StagedCommand` | crates/rsdb-cli/src/main.rs:2166-2288 | a staged push command succeeds exactly when every root goes well; verification never fails it |
| `Mux.TakeKeepsInv` | device/rsdbd/src/main.rs:737-776 | every step of the output loop keeps the invariant: relayed plus pending bytes are all the child writes, one EOF per channel once closed and nothing after it, no terminating response yet |
| `Mux.EveryInterleaving` | device/rsdbd/src/main.rs:722-797 | over every interleaving what was relayed is a prefix of each channel; a session without a stdin failure ends with all bytes, one EOF each, and one terminating response, last; the child was then reaped exactly once, and the status is its exit code, or -1 if a signal killed it |
| `Mux.RelayOutput` | device/rsdbd/src/main.rs:2334-2402 | the loop with its three variables puts exactly the specified session on the wire, for exec and for pipe shells |
| `ShellClient.ReadsAsSent` | crates/rsdb-cli/src/main.rs:4499-4552 | what the reader task makes of each frame the daemon sends, EOF frames and empty payloads included |
| `ShellClient.ReadsExactly` | crates/rsdb-cli/src/main.rs:4499-4552 | what it makes of any frame at all, on the bits of its header: hands on what is no stream frame, appends stdout and stderr payloads of this request, passes over empty frames of a known channel, and gives up on everything else |
| `ShellClient.ReturnsExactly` | crates/rsdb-cli/src/main.rs:4600-4640 | the main loop returns a status exactly for a shell exit response in front of its queue |
| `ShellClient.ActKeepsInv` | crates/rsdb-cli/src/main.rs:4499-4640 | every action of daemon, connection, reader task and main loop keeps the joint invariant |
| `ShellClient.ShellSession` | crates/rsdb-cli/src/main.rs:4449-4644 | over every interleaving, when the shell client returns a status it has written all bytes of both channels and the status is the exit code the child was reaped with, or -1 for a signal; it fails only on the daemon's error response |
| `Codecs.FaithfulRepliesExist` | crates/rsdb-proto/src/lib.rs:382-460 | there are codecs as the shell and the multiplexer theorems ask: every reply with a 32-bit status is read back and its encoding is short |
| `Codecs.LosslessCodecExists` | crates/rsdb-proto/src/lib.rs:382-460 | there are codecs as the push and pull theorems ask: lossless on all messages, every push reply with 64-bit counts fits a frame, and an error response has a text without control bytes |
| `ShellWords.QuotingRoundTrip` | device/rsdbd/src/main.rs:2831-2852 | lexing and quote-removing a joined command line by sections 2.2 and 2.3 of the POSIX.1-2017 Shell Command Language gives back exactly the command and its arguments |
| `ShellWords.UnquotedIff` | device/rsdbd/src/main.rs:2839-2850 | a word stays without quotes exactly when it is not empty and made of letters, digits and the eight marks listed |
| `ShellWords.QuotingInjective` | device/rsdbd/src/main.rs:2831-2852 | different command lines never join to the same text |
| `ShellWords.FirstTokenIsCommand` | device/rsdbd/src/main.rs:2831-2852 | the first token of a joined line, quotes included, is exactly the quoted command |
| `ShellWords.CommandRunsIff` | device/rsdbd/src/main.rs:2831-2852 | by rules 1 and 7 of section 2.10.2 of that standard, the token is a command name exactly when quotes were put around it, or it is no reserved word and has no equals sign after its first character; when it is a reserved word and when an assignment |
| `FsWrite.WriteDirect` | device/rsdbd/src/main.rs:1410-1431 | a direct write: when it succeeds, what it leaves - content, and mode in octal: the bits asked for or 0o644, an existing file's own, or 0o666 without the umask's bits - and that on the way and after a failure the path may show any beginning of the new content |
| `FsWrite.WriteAtomic` | device/rsdbd/src/main.rs:1433-1472 | an atomic write: every state on the way shows the whole old or the whole new file; when it succeeds, and with which mode, that of a new file if none was asked for; that a failure with a working clean-up changes nothing - and that it removes a file that already stood at the temporary path |
| `GuardedWrite.GuardsDecide` | device/rsdbd/src/main.rs:970-1013 | the guards pass exactly when the current content meets them, and `changed` is false exactly when the content stays the same |
| `GuardedWrite.HandleFsWrite` | device/rsdbd/src/main.rs:929-1042 | when exactly the request succeeds, what a rejected one leaves, what an atomic one shows, its effect on the path's content and mode, the mode it reports, and that no other path changes but for missing parents, if asked for |
| `GuardedWrite.AtMostOneCreates` | device/rsdbd/src/main.rs:970-975 | in any serial run, whatever else is in it, at most one if-missing write takes effect |
| `GuardedWrite.GuardSeesLastWrite` | device/rsdbd/src/main.rs:982-1003 | no lost update, as long as every failed request in between was atomic: an accepted digest-guarded write was guarded by the digest of exactly the last accepted content; a failed direct write may have left a beginning of its own bytes |
| `TargetRegistry.NormalizeRegistry` | crates/rsdb-cli/src/main.rs:5042-5064 | the in-place de-duplication loop computes the specified registry |
| `TargetRegistry.LastOfEachExact` | crates/rsdb-cli/src/main.rs:5042-5054 | every address keeps exactly its last entry, in last-occurrence order |
| `TargetRegistry.NormalizedIsSaved` | crates/rsdb-cli/src/main.rs:5042-5064 | a normalised registry has distinct addresses and a saved current target, none only if empty, and the primary target's address is kept |
| `TargetRegistry.NormalizedTwice` | crates/rsdb-cli/src/main.rs:5042-5064 | normalising is idempotent and leaves a saved registry alone |
| `TargetRegistry.Store.ConnectCommand` | crates/rsdb-cli/src/main.rs:806-828 | loading, changing and saving the registry for a connect |
| `TargetRegistry.Store.DisconnectCommand` | crates/rsdb-cli/src/main.rs:834-851 | loading, changing and saving the registry for a disconnect |
| `TargetRegistry.Store.DevicesCommand` | crates/rsdb-cli/src/main.rs:856-886 | renaming the primary target after a probe |
| `TargetRegistry.EveryRunSaves` | crates/rsdb-cli/src/main.rs:5007-5064 | after any run of these commands on any file, the file holds a registry with distinct addresses and a saved current target |
| `TargetRegistry.PrimaryExact` | crates/rsdb-cli/src/main.rs:4973-4993 | the primary target is the first at the current address, else the first of that name, else the last |
| `TargetRegistry.ConnectExact` | crates/rsdb-cli/src/main.rs:806-828 | after connecting, that address is current and last, named as asked, or else as already saved unless that name is only automatic, or else by the fallback; every other target is kept in order |
| `TargetRegistry.DevicesExact` | crates/rsdb-cli/src/main.rs:856-886 | renaming after a probe changes the primary target's name and nothing else |
| `TargetRegistry.DisconnectExact` | crates/rsdb-cli/src/main.rs:834-851 | disconnecting removes exactly the chosen target; the current one stays, or becomes the last of the rest if it was the one removed or the removed target's name happens to be its address |

## Left out

- Sockets, discovery, connection timeouts and cancellation; a connection is a byte sequence that may be cut. The
  multiplexer theorems are about runs without a timeout or an I/O error on the child's pipes or the connection.
- Liveness of the shell loops: a closed stdin-error channel is a step that does nothing, and safety allows any number
  of them.
- JSON, base64 and SHA-256: messages go through an abstract codec (assumed lossless where a theorem needs it), digests
  through an abstract function (assumed injective where a theorem needs it).
- Symlinks, devices, permission failures and names that are not UTF-8; trees are directories and regular files, names
  are valid single components, so sources whose root name is not one are not modelled.
- More than one file system: a rename across devices also fails after the destination has been removed, so the exact
  conditions about moves hold within one file system.
- Glob expansion of sources, progress display, the interactive editor, completion, PTY shells and the stdin pump.
- The legacy single-file push and pull requests, error-code tables and capability lists.
- Reads that fail midway through a file; a file read returns some bytes, fewer or more than expected. A file missing
  when it is opened is modelled.
- 64-bit overflow of byte totals, and 32-bit overflow of root indexes and depths: sums and counters are unbounded.
- An empty local destination text, and the current directory: destinations are absolute paths, possibly with a
  trailing slash. The fallback names for paths without a parent or a file name are not modelled.
- The length of a directory as `fs.list` and `fs.stat` report it, and modification times; no caller here looks at them.
- Concurrent requests on one path: the daemon is serial in every file-system theorem.
- The order of the daemon's errors where several apply is modelled, but not their texts.
- Shell grammar beyond the tokens and what the first one is; reserved words that only some shells have, and aliases.
- How a pull verified by SHA-256 finds the remote paths of its sources (`resolve_sha256_pull_sources`); what it then
  compares is modelled.
- Roots.ResolvedRootsAreSeparate: is about root names that are single components, as every sender of this repository
  builds them. What other received names resolve to, and when they keep apart, is stated on their components
  (`Roots.NameAlwaysBelowIff`, `Roots.RelativeRootsApartIff`); the transfers that follow are not modelled for them.
- Transfer.HandlePullBatch: assumes that the completion message, two numbers, fits a frame.
- PullTheorems.FailedPullNeverCompletes: assumes that the error response's text holds no byte below 0x20, as JSON text
  does.
- PullTheorems.PullIsExactCopy: trees with a mode of zero are excluded, because unpacking replaces such a mode by the
  default; `PullTheorems.PullRoundTrip` covers them.
- StagedOutcomes.StagedPushReplaces: like the other staged-push theorems it assumes that reading a file gives the
  walked content; a file rewritten with the same length in between is uploaded as read, and only verification would
  notice.
- GuardedWrite.GuardSeesLastWrite: assumes that every failed request since the last accepted write was atomic; a failed
  direct write may have left a beginning of its bytes.
- GuardedWrite.AtMostOneCreates: is about requests handled one after the other by the daemon alone.
- Verification.SecondPushSkipsIff: assumes that the staging paths of the first run did not exist before it.
