/**
 Pulling a forest: the client's run, its agreement with what the daemon sent,
 and what happens when a source changes under the daemon's hands.
 */
module Pull {
  import opened Base
  import opened Frames
  import opened Paths
  import opened Trees
  import opened FileSystem
  import opened Manifest
  import opened Overlay
  import opened Receiver
  import opened Slices
  import opened Roots
  import opened Unpack
  import opened Sender
  import opened Delivery
  import opened Forest
  import opened Transfer

  // ---------------------------------------------------------------------
  // The client's run
  // ---------------------------------------------------------------------

  lemma {:induction false} AfterFramesReadAll(input: seq<Byte>, n: nat)
    requires n <= |ReadAll(input).frames|
    ensures ReadAll(AfterFrames(input, n)) == From(ReadAll(input), n)
    decreases n
  {
    hide ReadFrame;
    if n != 0 {
      var rest := ReadFrame(input).value.1;
      AfterFramesReadAll(rest, n - 1);
    }
  }

  lemma {:induction false} AfterFramesTwice(input: seq<Byte>, a: nat, b: nat)
    requires a <= |ReadAll(input).frames| && b <= |ReadAll(AfterFrames(input, a)).frames|
    ensures a + b <= |ReadAll(input).frames| && AfterFrames(AfterFrames(input, a), b) == AfterFrames(input, a + b)
    decreases a
  {
    hide ReadFrame;
    AfterFramesReadAll(input, a);
    if a != 0 {
      AfterFramesTwice(ReadFrame(input).value.1, a - 1, b);
    }
  }

  /** read_response */
  method ReadResponse(stream: Reader, c: Codec, ghost start: seq<Byte>, ghost at: nat)
    returns (r: Result<Message, TransferError>)
    requires at <= |ReadAll(start).frames| && stream.input == AfterFrames(start, at)
    modifies stream
    ensures r == ResponseAt(c, ReadAll(start), at)
    ensures at < |ReadAll(start).frames| ==> stream.input == AfterFrames(start, at + 1)
  {
    AfterFramesNext(start, at);
    hide ReadFrame, ReadAll, AfterFrames;
    var payload := new Buffer();
    var header := ReadFrameInto(stream, payload);
    if header.Err? {
      return Err(OnWire(header.error));
    }
    if header.value.kind != Response {
      return Err(OnWire(UnexpectedFrameKind(Response, header.value.kind)));
    }
    match c.decode(payload.bytes) {
      case None => return Err(UnexpectedResponse);
      case Some(m) => return Ok(m);
    }
  }

  /** The state and result an outcome stands for. */
  ghost predicate PullEnds(outcome: PullOutcome, start: seq<Byte>, fs: FS, input: seq<Byte>,
                           r: Result<(nat, nat, nat), TransferError>)
  {
    match outcome
    case PullDone(after, next, entries, bytes, totalBytes) =>
      r == Ok((entries, bytes, totalBytes)) && fs == after &&
      next <= |ReadAll(start).frames| && input == AfterFrames(start, next)
    case PullFailed(after, error) => r == Err(error) && fs == after
  }

  lemma PullFails(start: seq<Byte>, fs: FS, input: seq<Byte>, error: TransferError)
    ensures PullEnds(PullFailed(fs, error), start, fs, input, Err(error))
  {
  }

  /** execute_pull after the request: metadata, batch data, completion. */
  method ExecutePull(disk: Disk, stream: Reader, destination: Destination, c: Codec)
    returns (r: Result<(nat, nat, nat), TransferError>)
    modifies disk, stream
    ensures PullEnds(PullClient(old(disk.fs), disk.umask, destination, c, ReadAll(old(stream.input))),
                     old(stream.input), disk.fs, stream.input, r)
  {
    ghost var start, fs0 := stream.input, disk.fs;
    assert stream.input == AfterFrames(start, 0);
    PullStages(fs0, disk.umask, destination, c, ReadAll(start));
    hide ReadAll, AfterFrames, PullClient, PullEnds, ResponseAt, LocalRoots, FinishPull, ReceiveBatch, BatchEnds;
    var first := ReadResponse(stream, c, start, 0);
    if first.Err? {
      PullFails(start, disk.fs, stream.input, first.error);
      return Err(first.error);
    }
    match first.value {
      case PullBatchMetadata(roots, entries, totalBytes) =>
        r := ReceivePull(disk, stream, destination, c, roots, entries, totalBytes, start);
      case ErrorResponse =>
        PullFails(start, disk.fs, stream.input, RemoteError);
        return Err(RemoteError);
      case _ =>
        PullFails(start, disk.fs, stream.input, UnexpectedResponse);
        return Err(UnexpectedResponse);
    }
  }

  /** How a pull goes on once its batch data has been received or not. */
  function AfterBatch(c: Codec, inc: Incoming, outcome: BatchOutcome, totalBytes: nat): PullOutcome
    requires outcome.Completed? ==> 1 + outcome.next <= |inc.frames|
  {
    match outcome
    case Failed(after, e) => PullFailed(after, e)
    case Completed(after, next, n, bytes) => FinishPull(c, inc, after, 1 + next, n, bytes, totalBytes)
  }

  /** How a pull goes on once its metadata is known. */
  function PullBody(fs: FS, umask: Mode, destination: Destination, c: Codec, inc: Incoming,
                    roots: seq<TransferRoot>, entries: seq<TransferEntry>, totalBytes: nat): PullOutcome
    requires inc.frames != []
  {
    match LocalRoots(fs, destination, roots)
    case Err(e) => PullFailed(fs, e)
    case Ok(rootPaths) =>
      AfterBatch(c, inc, ReceiveBatch(fs, Client, umask, rootPaths, entries, From(inc, 1), REQUEST_ID), totalBytes)
  }

  lemma PullStages(fs: FS, umask: Mode, destination: Destination, c: Codec, inc: Incoming)
    ensures ResponseAt(c, inc, 0).Ok? ==> inc.frames != []
    ensures PullClient(fs, umask, destination, c, inc) ==
            match ResponseAt(c, inc, 0)
            case Err(e) => PullFailed(fs, e)
            case Ok(PullBatchMetadata(roots, entries, totalBytes)) =>
              PullBody(fs, umask, destination, c, inc, roots, entries, totalBytes)
            case Ok(ErrorResponse) => PullFailed(fs, RemoteError)
            case Ok(_) => PullFailed(fs, UnexpectedResponse)
  {
  }

  /** A response is a frame of that kind that the codec reads as a message. */
  lemma ResponseExact(c: Codec, inc: Incoming, at: nat, m: Message)
    requires at <= |inc.frames|
    ensures ResponseAt(c, inc, at) == Ok(m) <==>
            at < |inc.frames| && inc.frames[at].header.kind == FrameKind.Response && c.decode(inc.frames[at].payload) == Some(m)
  {
  }

  /**
   On any incoming frames a pull is done exactly when the first is metadata, its roots resolve, the batch data is received,
   and the response right behind it reports as many entries and bytes as were received.
   */
  lemma PullDoneIff(fs: FS, umask: Mode, destination: Destination, c: Codec, inc: Incoming, roots: seq<TransferRoot>,
                    entries: seq<TransferEntry>, totalBytes: nat)
    requires ResponseAt(c, inc, 0) == Ok(PullBatchMetadata(roots, entries, totalBytes))
    ensures inc.frames != []
    ensures var r, resolved := PullClient(fs, umask, destination, c, inc), LocalRoots(fs, destination, roots);
            if resolved.Err? then r == PullFailed(fs, resolved.error)
            else
              var got := ReceiveBatch(fs, Client, umask, resolved.value, entries, From(inc, 1), REQUEST_ID);
              (r.PullDone? <==>
                 got.Completed? && 1 + got.next < |inc.frames| &&
                 inc.frames[1 + got.next].header.kind == FrameKind.Response &&
                 c.decode(inc.frames[1 + got.next].payload) == Some(PullBatchComplete(got.entries, got.bytes))) &&
              (r.PullDone? ==> r == PullDone(got.fs, 2 + got.next, got.entries, got.bytes, totalBytes))
  {
    hide ReceiveBatch, LocalRoots;
  }

  /** Without metadata in front nothing is done, and the file system stays. */
  lemma NoMetadataNoPull(fs: FS, umask: Mode, destination: Destination, c: Codec, inc: Incoming)
    requires ResponseAt(c, inc, 0).Ok? ==> !ResponseAt(c, inc, 0).value.PullBatchMetadata?
    ensures PullClient(fs, umask, destination, c, inc).PullFailed? && PullClient(fs, umask, destination, c, inc).fs == fs
  {
    hide ReceiveBatch, LocalRoots;
  }

  method ReceivePull(disk: Disk, stream: Reader, destination: Destination, c: Codec, roots: seq<TransferRoot>,
                     entries: seq<TransferEntry>, totalBytes: nat, ghost start: seq<Byte>)
    returns (r: Result<(nat, nat, nat), TransferError>)
    requires ReadAll(start).frames != [] && stream.input == AfterFrames(start, 1)
    modifies disk, stream
    ensures PullEnds(PullBody(old(disk.fs), disk.umask, destination, c, ReadAll(start), roots, entries, totalBytes),
                     start, disk.fs, stream.input, r)
  {
    ghost var fs0, inc := disk.fs, ReadAll(start);
    AfterFramesReadAll(start, 1);
    hide *;
    var rootPaths := LocalRoots(disk.fs, destination, roots);
    BodyStages(fs0, disk.umask, destination, c, inc, roots, entries, totalBytes);
    if rootPaths.Err? {
      PullFails(start, disk.fs, stream.input, rootPaths.error);
      return Err(rootPaths.error);
    }
    r := ReceivePullInto(disk, stream, rootPaths.value, c, entries, totalBytes, start);
  }

  /** The batch data and the completion that follows it. */
  method ReceivePullInto(disk: Disk, stream: Reader, rootPaths: seq<Path>, c: Codec, entries: seq<TransferEntry>,
                         totalBytes: nat, ghost start: seq<Byte>) returns (r: Result<(nat, nat, nat), TransferError>)
    requires ReadAll(start).frames != [] && stream.input == AfterFrames(start, 1)
    modifies disk, stream
    ensures var inc := ReadAll(start);
            var outcome := ReceiveBatch(old(disk.fs), Client, disk.umask, rootPaths, entries, From(inc, 1), REQUEST_ID);
            PullEnds(AfterBatch(c, inc, outcome, totalBytes), start, disk.fs, stream.input, r)
  {
    ghost var outcome := ReceiveBatch(disk.fs, Client, disk.umask, rootPaths, entries, From(ReadAll(start), 1), REQUEST_ID);
    AfterFramesReadAll(start, 1);
    hide *;
    AfterBatchStages(c, ReadAll(start), outcome, totalBytes);
    var received := ReceiveBatchInto(disk, stream, Client, rootPaths, entries, REQUEST_ID);
    BatchEnded(outcome, start, disk.fs, stream.input, received);
    if received.Err? {
      PullFails(start, disk.fs, stream.input, received.error);
      return Err(received.error);
    }
    r := ReceiveCompletion(disk, stream, c, received.value.0, received.value.1, totalBytes, start, 1 + outcome.next);
  }

  lemma BodyStages(fs: FS, umask: Mode, destination: Destination, c: Codec, inc: Incoming,
                   roots: seq<TransferRoot>, entries: seq<TransferEntry>, totalBytes: nat)
    requires inc.frames != []
    ensures PullBody(fs, umask, destination, c, inc, roots, entries, totalBytes) ==
            match LocalRoots(fs, destination, roots)
            case Err(e) => PullFailed(fs, e)
            case Ok(rootPaths) =>
              AfterBatch(c, inc, ReceiveBatch(fs, Client, umask, rootPaths, entries, From(inc, 1), REQUEST_ID), totalBytes)
  {
    hide ReceiveBatch, FinishPull;
  }

  lemma AfterBatchStages(c: Codec, inc: Incoming, outcome: BatchOutcome, totalBytes: nat)
    requires outcome.Completed? ==> 1 + outcome.next <= |inc.frames|
    ensures AfterBatch(c, inc, outcome, totalBytes) ==
            match outcome
            case Failed(after, e) => PullFailed(after, e)
            case Completed(after, next, n, bytes) => FinishPull(c, inc, after, 1 + next, n, bytes, totalBytes)
  {
  }

  lemma BatchEnded(outcome: BatchOutcome, start: seq<Byte>, fs: FS, input: seq<Byte>, r: Result<(nat, nat), TransferError>)
    requires ReadAll(start).frames != [] && BatchEnds(outcome, AfterFrames(start, 1), fs, input, r)
    ensures match outcome
            case Completed(after, next, n, bytes) =>
              r == Ok((n, bytes)) && fs == after && 1 + next <= |ReadAll(start).frames| && input == AfterFrames(start, 1 + next)
            case Failed(after, error) => r == Err(error) && fs == after
  {
    hide ReadAll, AfterFrames;
    if outcome.Completed? {
      AfterFramesTwice(start, 1, outcome.next);
    }
  }

  method ReceiveCompletion(disk: Disk, stream: Reader, c: Codec, entries: nat, bytes: nat, totalBytes: nat,
                           ghost start: seq<Byte>, ghost at: nat) returns (r: Result<(nat, nat, nat), TransferError>)
    requires at <= |ReadAll(start).frames| && stream.input == AfterFrames(start, at)
    modifies stream
    ensures PullEnds(FinishPull(c, ReadAll(start), disk.fs, at, entries, bytes, totalBytes),
                     start, disk.fs, stream.input, r)
  {
    hide ReadAll, AfterFrames;
    var last := ReadResponse(stream, c, start, at);
    if last.Err? {
      return Err(last.error);
    }
    match last.value {
      case PullBatchComplete(entriesSent, bytesSent) =>
        if entriesSent != entries || bytesSent != bytes {
          return Err(CountMismatch);
        }
        r := Ok((entries, bytes, totalBytes));
      case ErrorResponse => return Err(RemoteError);
      case _ => return Err(UnexpectedResponse);
    }
  }

  // ---------------------------------------------------------------------
  // A streamed forest arrives
  // ---------------------------------------------------------------------

  /** The reads of the files, however they fall, return what the forest holds. */
  ghost predicate Unchanged(sources: seq<Source>, fileReads: seq<seq<ReadBlock>>) {
    |fileReads| == |ForestContents(sources)| &&
    forall k | 0 <= k < |fileReads| :: Joined(fileReads[k]) == ForestContents(sources)[k]
  }

  lemma UnchangedKeepsSizes(sources: seq<Source>, fileReads: seq<seq<ReadBlock>>)
    requires ValidSources(sources) && Unchanged(sources, fileReads)
    ensures var sizes := FileSizes(ForestManifest(sources).files);
            |sizes| == |fileReads| && SizesKept(sizes, fileReads) &&
            JoinedEach(fileReads, |fileReads|) == ForestContents(sources) &&
            sizes == FileEntrySizes(ForestManifest(sources).entries) && Sum(sizes) == ForestManifest(sources).totalBytes
  {
    ForestShape(sources, 0);
    ForestSizes(sources, 0);
    LengthsAt(ForestContents(sources));
    hide ForestTally, ForestContents, CanonicalTexts, Increasing, ParentsFirst, FilesAgree;
    var sizes := FileSizes(ForestManifest(sources).files);
    forall i | 0 <= i < |sizes|
      ensures |Joined(fileReads[i])| == sizes[i]
    {
      assert Joined(fileReads[i]) == ForestContents(sources)[i];
    }
    assert JoinedEach(fileReads, |fileReads|) == ForestContents(sources);
  }

  lemma ForestEntriesGood(rootPaths: seq<Path>, sources: seq<Source>)
    requires ValidSources(sources) && |rootPaths| == |sources| && Separate(rootPaths)
    ensures GoodEntries(rootPaths, ForestManifest(sources).entries)
  {
    ForestShape(sources, 0);
    var entries := ForestManifest(sources).entries;
    hide ForestTally, CanonicalTexts, Increasing, ParentsFirst, FilesAgree, Separate;
    forall i | 0 <= i < |entries|
      ensures entries[i].rootIndex < |rootPaths|
    {
      assert entries[i] in entries;
    }
  }

  /**
   A forest streamed unchanged, followed by the EOF frame, is received exactly when nothing is in its way;
   then it lies over the file system, and the counts are the manifest's.
   */
  lemma ForestDelivered(fs: FS, side: Side, umask: Mode, rootPaths: seq<Path>, sources: seq<Source>,
                        fileReads: seq<seq<ReadBlock>>, inc: Incoming)
    requires WellFormed(fs) && ValidSources(sources) && |rootPaths| == |sources| && Separate(rootPaths)
    requires Unchanged(sources, fileReads)
    requires Occurs(inc.frames, 0, FileFrames(sources, fileReads).frames + [FileEof()])
    ensures var m, r := ForestManifest(sources),
                        ReceiveBatch(fs, side, umask, rootPaths, ForestManifest(sources).entries, inc, REQUEST_ID);
            (r.Completed? <==> ClearWay(fs, rootPaths, sources)) &&
            (r.Completed? ==>
               r.entries == |m.entries| && r.bytes == m.totalBytes &&
               r.next == |FileFrames(sources, fileReads).frames| + 1 &&
               WellFormed(r.fs) && LaidOver(fs, r.fs, side, umask, rootPaths, sources))
  {
    var m := ForestManifest(sources);
    ForestRead(sources, fileReads, inc);
    ForestReadItems(rootPaths, sources, inc);
    hide *;
    ForestEntriesGood(rootPaths, sources);
    ClearWayIsCompatible(fs, rootPaths, sources);
    ReceiverRefinement(fs, side, umask, rootPaths, m.entries, inc, REQUEST_ID);
    var r := ReceiveBatch(fs, side, umask, rootPaths, m.entries, inc, REQUEST_ID);
    if r.Completed? {
      OverlayIsLaidOver(fs, r.fs, side, umask, rootPaths, sources);
    }
  }

  /** The streamed files are read back as the forest's contents, and the EOF frame follows. */
  lemma ForestRead(sources: seq<Source>, fileReads: seq<seq<ReadBlock>>, inc: Incoming)
    requires ValidSources(sources) && Unchanged(sources, fileReads)
    requires Occurs(inc.frames, 0, FileFrames(sources, fileReads).frames + [FileEof()])
    ensures var m, n := ForestManifest(sources), |FileFrames(sources, fileReads).frames|;
            ReceiveContents(inc, REQUEST_ID, 0, FileEntrySizes(m.entries)) == AllRead(ForestContents(sources), n) &&
            n < |inc.frames| && EofAt(inc, REQUEST_ID, n) == Ok(()) &&
            Sum(FileEntrySizes(m.entries)) == m.totalBytes
  {
    hide *;
    var m, sent := ForestManifest(sources), FileFrames(sources, fileReads).frames;
    FramesAreStreamed(sources, fileReads);
    UnchangedKeepsSizes(sources, fileReads);
    OccursSplit(inc.frames, 0, sent, [FileEof()]);
    EofArrives(inc, |sent|);
    StreamedIsRead(REQUEST_ID, FileSizes(m.files), fileReads, inc, 0);
  }

  lemma FramesAreStreamed(sources: seq<Source>, fileReads: seq<seq<ReadBlock>>)
    ensures FileFrames(sources, fileReads) == StreamFiles(REQUEST_ID, FileSizes(ForestManifest(sources).files), fileReads)
  {
  }

  lemma ForestReadItems(rootPaths: seq<Path>, sources: seq<Source>, inc: Incoming)
    requires |rootPaths| == |sources|
    requires var c := ReceiveContents(inc, REQUEST_ID, 0, FileEntrySizes(ForestManifest(sources).entries));
             c.AllRead? && c.contents == ForestContents(sources)
    ensures Resolves(rootPaths, ForestManifest(sources).entries)
    ensures ReadItems(rootPaths, ForestManifest(sources).entries, inc, REQUEST_ID) == ForestItems(rootPaths, 0, sources)
  {
    ForestManifestItems(rootPaths, 0, sources);
  }

  lemma EofArrives(inc: Incoming, at: nat)
    requires Occurs(inc.frames, at, [FileEof()])
    ensures at < |inc.frames| && EofAt(inc, REQUEST_ID, at) == Ok(())
  {
    hide StreamFlags, DecodeStreamHeader;
    assert inc.frames[at + 0] == [FileEof()][0];
    StreamHeaderRoundTrip(REQUEST_ID, StreamChannel.File, true, []);
  }
}
