/**
 Pushing one batch: the client streams, the daemon unpacks, and the connection
 may be lost at any byte.
 */
module Push {
  import opened Base
  import opened Frames
  import opened Paths
  import opened Trees
  import opened FileSystem
  import opened Manifest
  import opened Overlay
  import opened Receiver
  import opened Roots
  import opened Unpack
  import opened Sender
  import opened Delivery
  import opened Forest
  import opened Transfer
  import opened Pull
  import opened PullTheorems

  // ---------------------------------------------------------------------
  // The daemon's side
  // ---------------------------------------------------------------------

  /** handle_push_batch on whatever arrives. */
  function PushServer(fs: FS, umask: Mode, destination: Option<Destination>, roots: seq<TransferRoot>,
                      entries: seq<TransferEntry>, inc: Incoming): BatchOutcome
  {
    match DaemonRoots(fs, destination, roots)
    case Err(e) => Failed(fs, e)
    case Ok(rootPaths) => ReceiveBatch(fs, Daemon, umask, rootPaths, entries, inc, REQUEST_ID)
  }

  /** What the daemon has sent once the push is over; a failure of its handler becomes an error response. */
  function PushReplies(fs: FS, destination: Option<Destination>, roots: seq<TransferRoot>, outcome: BatchOutcome): seq<Message> {
    if DaemonRoots(fs, destination, roots).Err? then [ErrorResponse]
    else if outcome.Failed? then [PushBatchReady, ErrorResponse]
    else [PushBatchReady, PushBatchComplete(outcome.entries, outcome.bytes)]
  }

  function MessageWire(c: Codec, ms: seq<Message>): seq<Byte>
    requires RepliesFit(c, ms)
  {
    if ms == [] then [] else EncodeFrame(MessageFrame(c, ms[0])) + MessageWire(c, ms[1..])
  }

  ghost predicate RepliesFit(c: Codec, ms: seq<Message>) {
    forall i | 0 <= i < |ms| :: Fits(c, ms[i])
  }

  /** The request handler together with the dispatcher's error response. */
  method ServePush(disk: Disk, stream: Reader, writer: Writer, destination: Option<Destination>, roots: seq<TransferRoot>,
                   entries: seq<TransferEntry>, c: Codec) returns (ok: bool)
    requires writer.buffer == [] && writer.capacity == 0
    requires RepliesFit(c, PushReplies(disk.fs, destination, roots,
                                       PushServer(disk.fs, disk.umask, destination, roots, entries, ReadAll(stream.input))))
    modifies disk, stream, writer
    ensures var outcome := PushServer(old(disk.fs), disk.umask, destination, roots, entries, ReadAll(old(stream.input)));
            disk.fs == outcome.fs && (ok <==> outcome.Completed?) &&
            writer.output == old(writer.output)
                             + MessageWire(c, PushReplies(old(disk.fs), destination, roots, outcome))
  {
    ghost var fs0, start, sent := disk.fs, stream.input, writer.output;
    ghost var outcome := PushServer(fs0, disk.umask, destination, roots, entries, ReadAll(start));
    RepliesOnWire(c, fs0, destination, roots, outcome, sent);
    var rootPaths := DaemonRoots(disk.fs, destination, roots);
    if rootPaths.Err? {
      var _ := WriteMessage(writer, ErrorResponse, c);
      return false;
    }
    assert outcome == ReceiveBatch(fs0, Daemon, disk.umask, rootPaths.value, entries, ReadAll(start), REQUEST_ID);
    hide *;
    var _ := WriteMessage(writer, PushBatchReady, c);
    var received := ReceiveBatchInto(disk, stream, Daemon, rootPaths.value, entries, REQUEST_ID);
    PushBatchEnded(outcome, start, disk.fs, stream.input, received);
    if received.Err? {
      var _ := WriteMessage(writer, ErrorResponse, c);
      return false;
    }
    var _ := WriteMessage(writer, PushBatchComplete(received.value.0, received.value.1), c);
    ok := true;
  }

  lemma PushBatchEnded(outcome: BatchOutcome, start: seq<Byte>, fs: FS, input: seq<Byte>, r: Result<(nat, nat), TransferError>)
    requires BatchEnds(outcome, start, fs, input, r)
    ensures fs == outcome.fs && (r.Ok? <==> outcome.Completed?) && (r.Ok? ==> r.value == (outcome.entries, outcome.bytes))
  {
  }

  lemma RepliesOnWire(c: Codec, fs: FS, destination: Option<Destination>, roots: seq<TransferRoot>,
                      outcome: BatchOutcome, sent: seq<Byte>)
    requires RepliesFit(c, PushReplies(fs, destination, roots, outcome))
    ensures if DaemonRoots(fs, destination, roots).Err? then Fits(c, ErrorResponse)
            else
              Fits(c, PushBatchReady) &&
              Fits(c, if outcome.Failed? then ErrorResponse else PushBatchComplete(outcome.entries, outcome.bytes))
    ensures sent + MessageWire(c, PushReplies(fs, destination, roots, outcome)) ==
            if DaemonRoots(fs, destination, roots).Err? then sent + EncodeFrame(MessageFrame(c, ErrorResponse))
            else if outcome.Failed? then
              sent + EncodeFrame(MessageFrame(c, PushBatchReady)) + EncodeFrame(MessageFrame(c, ErrorResponse))
            else
              sent + EncodeFrame(MessageFrame(c, PushBatchReady))
              + EncodeFrame(MessageFrame(c, PushBatchComplete(outcome.entries, outcome.bytes)))
  {
    hide EncodeFrame, MessageFrame, DaemonRoots;
    var ms := PushReplies(fs, destination, roots, outcome);
    assert Fits(c, ms[0]);
    if DaemonRoots(fs, destination, roots).Err? {
      OneMessage(c, ErrorResponse);
    } else {
      var last := if outcome.Failed? then ErrorResponse else PushBatchComplete(outcome.entries, outcome.bytes);
      assert Fits(c, ms[1]);
      OneMessage(c, last);
      assert [PushBatchReady, last][1..] == [last];
      Associate(sent, EncodeFrame(MessageFrame(c, PushBatchReady)), EncodeFrame(MessageFrame(c, last)));
    }
  }

  lemma OneMessage(c: Codec, m: Message)
    requires Fits(c, m)
    ensures MessageWire(c, [m]) == EncodeFrame(MessageFrame(c, m))
  {
    assert [m][1..] == [];
    assert EncodeFrame(MessageFrame(c, m)) + [] == EncodeFrame(MessageFrame(c, m));
  }

  // ---------------------------------------------------------------------
  // The client's side, and the connection between them
  // ---------------------------------------------------------------------

  /** The client streams without a mishap: no file changed, and the total is the manifest's. */
  predicate StreamComplete(m: BatchManifest, fileReads: seq<seq<ReadBlock>>) {
    StreamFiles(REQUEST_ID, FileSizes(m.files), fileReads).result == Ok(m.totalBytes)
  }

  /** The frames the client has to send: the files', and the EOF frame if nothing went wrong. */
  function PushStream(m: BatchManifest, fileReads: seq<seq<ReadBlock>>): seq<Frame> {
    StreamFiles(REQUEST_ID, FileSizes(m.files), fileReads).frames
    + if StreamComplete(m, fileReads) then [FileEof()] else []
  }

  /**
   How one push request fares: whether it reaches the daemon at all, what the file reads return, after how many
   bytes of the stream the connection is lost, and whether the daemon's replies get back.
   */
  datatype Attempt = Attempt(reached: bool, fileReads: seq<seq<ReadBlock>>, delivered: nat, acked: bool)

  function DeliveredBytes(m: BatchManifest, a: Attempt): seq<Byte> {
    var wire := Wire(PushStream(m, a.fileReads));
    if a.delivered < |wire| then wire[..a.delivered] else wire
  }

  predicate FullyDelivered(m: BatchManifest, a: Attempt) {
    a.reached && a.acked && StreamComplete(m, a.fileReads) && |Wire(PushStream(m, a.fileReads))| <= a.delivered
  }

  datatype PushOutcome = Pushed(fs: FS, entries: nat, bytes: nat) | NotPushed(fs: FS)

  /** execute_push_manifest against the daemon: the remote file system afterwards, and the client's verdict. */
  function PushBatch(fs: FS, umask: Mode, destination: Option<Destination>, m: BatchManifest, a: Attempt): PushOutcome {
    if !a.reached then NotPushed(fs)
    else
      var served := PushServer(fs, umask, destination, m.roots, m.entries, ReadAll(DeliveredBytes(m, a)));
      if served.Completed? && FullyDelivered(m, a) && served.bytes == m.totalBytes then
        Pushed(served.fs, served.entries, served.bytes)
      else NotPushed(served.fs)
  }

  /** What the client makes of its own streaming. */
  function SendVerdict(m: BatchManifest, fileReads: seq<seq<ReadBlock>>): Result<nat, TransferError> {
    match StreamFiles(REQUEST_ID, FileSizes(m.files), fileReads).result
    case Err(e) => Err(e)
    case Ok(sent) => if sent != m.totalBytes then Err(SourceChanged) else Ok(sent)
  }

  /** What the client has sent of a push when its streaming has ended, well or badly. */
  function StreamedBytes(m: BatchManifest, fileReads: seq<seq<ReadBlock>>): seq<Byte> {
    var streamed := StreamFiles(REQUEST_ID, FileSizes(m.files), fileReads);
    if streamed.result.Err? then PassedOn(streamed.frames) else Wire(PushStream(m, fileReads))
  }

  /**
   The client's streaming of a batch: on success everything including the EOF frame is on the connection, otherwise
   what had left the buffer when a file was missing or changed.
   */
  method SendPushStream(writer: Writer, m: BatchManifest, read: FileReader) returns (r: Result<nat, TransferError>)
    requires writer.buffer == [] && writer.capacity == 0
    modifies writer
    ensures r == SendVerdict(m, ReadsOf(read, m.files)) && writer.buffer == [] && writer.capacity == 0
    ensures r.Ok? <==> StreamComplete(m, ReadsOf(read, m.files))
    ensures r.Ok? ==> r.value == m.totalBytes && writer.output == old(writer.output) + Wire(PushStream(m, ReadsOf(read, m.files)))
    ensures writer.output == old(writer.output) + StreamedBytes(m, ReadsOf(read, m.files))
  {
    ghost var start := writer.output;
    PushStreamWire(m, ReadsOf(read, m.files), start);
    hide EncodeFrame, StreamFiles, Wire, PassedOn, ReadsOf;
    var sent := StreamBatchFiles(writer, REQUEST_ID, m.files, read);
    if sent.Err? {
      return Err(sent.error);
    }
    if sent.value != m.totalBytes {
      return Err(SourceChanged);
    }
    WriteFileEof(writer);
    r := Ok(sent.value);
  }

  lemma PushStreamWire(m: BatchManifest, fileReads: seq<seq<ReadBlock>>, start: seq<Byte>)
    ensures start + Wire(PushStream(m, fileReads)) ==
            start + Wire(StreamFiles(REQUEST_ID, FileSizes(m.files), fileReads).frames)
            + if StreamComplete(m, fileReads) then EncodeFrame(FileEof()) else []
  {
    hide EncodeFrame, Wire;
    var frames := StreamFiles(REQUEST_ID, FileSizes(m.files), fileReads).frames;
    WireAppendOne(frames, FileEof());
    assert frames + [] == frames;
    assert start + Wire(frames) + [] == start + Wire(frames);
  }

  // ---------------------------------------------------------------------
  // What a push guarantees
  // ---------------------------------------------------------------------

  /**
   The push round trip: fully delivered and with nothing changed at the source, a push of a forest succeeds
   exactly when nothing is in its way; both ends then report the manifest's counts, and the forest lies over
   the remote file system, replacing what it meets and keeping everything else.
   */
  lemma PushRoundTrip(fs: FS, umask: Mode, destination: Option<Destination>, rootPaths: seq<Path>,
                      sources: seq<Source>, a: Attempt)
    requires ValidSources(sources) && Unchanged(sources, a.fileReads)
    requires WellFormed(fs) && DaemonRoots(fs, destination, RootsOf(sources)) == Ok(rootPaths)
    requires a.reached && a.acked && |Wire(PushStream(ForestManifest(sources), a.fileReads))| <= a.delivered
    ensures |rootPaths| == |sources|
    ensures var m := ForestManifest(sources);
            var r := PushBatch(fs, umask, destination, m, a);
            FullyDelivered(m, a) && (r.Pushed? <==> ClearWay(fs, rootPaths, sources)) &&
            (r.Pushed? ==> r.entries == |m.entries| && r.bytes == m.totalBytes && WellFormed(r.fs) &&
                           LaidOver(fs, r.fs, Daemon, umask, rootPaths, sources))
  {
    var m := ForestManifest(sources);
    assert destination.Some? by {
      hide StatText, JoinNames, RepeatedName;
    }
    DaemonAndLocalAgree(fs, destination.value, RootsOf(sources));
    ResolvedRootsAreSeparate(fs, destination.value, RootsOf(sources));
    PushStreamArrives(sources, a);
    var inc := ReadAll(DeliveredBytes(m, a));
    assert m.roots == RootsOf(sources);
    PushStages(fs, umask, destination, m, a);
    hide *;
    ForestDelivered(fs, Daemon, umask, rootPaths, sources, a.fileReads, inc);
  }

  lemma PushStages(fs: FS, umask: Mode, destination: Option<Destination>, m: BatchManifest, a: Attempt)
    requires a.reached && DaemonRoots(fs, destination, m.roots).Ok?
    ensures var rootPaths := DaemonRoots(fs, destination, m.roots).value;
            var served := ReceiveBatch(fs, Daemon, umask, rootPaths, m.entries, ReadAll(DeliveredBytes(m, a)), REQUEST_ID);
            PushBatch(fs, umask, destination, m, a) ==
            if served.Completed? && FullyDelivered(m, a) && served.bytes == m.totalBytes then
              Pushed(served.fs, served.entries, served.bytes)
            else NotPushed(served.fs)
  {
  }

  lemma PushStreamArrives(sources: seq<Source>, a: Attempt)
    requires ValidSources(sources) && Unchanged(sources, a.fileReads)
    requires a.reached && a.acked && |Wire(PushStream(ForestManifest(sources), a.fileReads))| <= a.delivered
    ensures var m := ForestManifest(sources);
            FullyDelivered(m, a) &&
            Occurs(ReadAll(DeliveredBytes(m, a)).frames, 0, FileFrames(sources, a.fileReads).frames + [FileEof()])
  {
    var m := ForestManifest(sources);
    UnchangedKeepsSizes(sources, a.fileReads);
    StreamSucceedsIffUnchanged(REQUEST_ID, FileSizes(m.files), a.fileReads);
    StreamedSendable(REQUEST_ID, FileSizes(m.files), a.fileReads);
    var frames := FileFrames(sources, a.fileReads).frames;
    assert Sendable(FileEof());
    assert PushStream(m, a.fileReads) == frames + [FileEof()];
    assert forall f | f in frames + [FileEof()] :: Sendable(f);
    hide *;
    WholeWire(frames + [FileEof()]);
  }

  lemma WholeWire(frames: seq<Frame>)
    requires forall f | f in frames :: Sendable(f)
    ensures ReadAll(Wire(frames)).frames == frames
  {
    ReadAllWire(frames, []);
    ReadAllNothing();
    hide *;
    assert Wire(frames) + [] == Wire(frames);
    assert frames + [] == frames;
  }

  /** The daemon completes a push only if the client's stream was complete and arrived to its last byte. */
  lemma CutPushNeverCompletes(fs: FS, umask: Mode, destination: Option<Destination>, m: BatchManifest, a: Attempt)
    requires !StreamComplete(m, a.fileReads) || a.delivered < |Wire(PushStream(m, a.fileReads))|
    ensures PushServer(fs, umask, destination, m.roots, m.entries, ReadAll(DeliveredBytes(m, a))).Failed?
    ensures PushBatch(fs, umask, destination, m, a).NotPushed?
  {
    CutPushHasNoEof(m, a);
    var inc := ReadAll(DeliveredBytes(m, a));
    hide ReceiveBatch, ReadAll, DeliveredBytes;
    var roots := DaemonRoots(fs, destination, m.roots);
    if roots.Ok? {
      NoEofNeverCompletes(fs, Daemon, umask, roots.value, m.entries, inc);
    }
  }

  lemma CutPushHasNoEof(m: BatchManifest, a: Attempt)
    requires !StreamComplete(m, a.fileReads) || a.delivered < |Wire(PushStream(m, a.fileReads))|
    ensures NoEof(ReadAll(DeliveredBytes(m, a)).frames)
  {
    hide *;
    var files, n := CutWithinChunks(m, a);
    CutChunksHaveNoEof(files, PushStream(m, a.fileReads), n);
  }

  /** What arrives of an incomplete or cut stream, as a prefix of a wire. */
  lemma CutWithinChunks(m: BatchManifest, a: Attempt) returns (files: seq<Frame>, n: nat)
    requires !StreamComplete(m, a.fileReads) || a.delivered < |Wire(PushStream(m, a.fileReads))|
    ensures var all := PushStream(m, a.fileReads);
            FileChunks(files) && n <= |Wire(all)| && DeliveredBytes(m, a) == Wire(all)[..n] &&
            (all == files || (all == files + [FileEof()] && n < |Wire(all)|))
  {
    hide StreamFiles, FileSizes, Wire, FileEof;
    files := StreamFiles(REQUEST_ID, FileSizes(m.files), a.fileReads).frames;
    StreamedFrames(REQUEST_ID, FileSizes(m.files), a.fileReads);
    assert files + [] == files;
    var all := PushStream(m, a.fileReads);
    n := if a.delivered < |Wire(all)| then a.delivered else |Wire(all)|;
    assert DeliveredBytes(m, a) == Wire(all)[..n];
  }

  lemma CutChunksHaveNoEof(files: seq<Frame>, all: seq<Frame>, n: nat)
    requires FileChunks(files) && n <= |Wire(all)|
    requires all == files || (all == files + [FileEof()] && n < |Wire(all)|)
    ensures NoEof(ReadAll(Wire(all)[..n]).frames)
  {
    hide *;
    AllSendable(files, all);
    ReadAllCut(all, n);
    assert all[..|all|] == all;
    WholeFramesFit(all, n);
    var k := WholeFrames(all, n);
    assert k <= |files| && all[..k] == files[..k];
    ChunksPrefix(files, k);
  }

  lemma AllSendable(files: seq<Frame>, all: seq<Frame>)
    requires FileChunks(files) && (all == files || all == files + [FileEof()])
    ensures forall f | f in all :: Sendable(f)
  {
    assert Sendable(FileEof());
    ChunksSendable(files);
    hide *;
    assert forall f | f in all :: f in files || f == FileEof();
  }

  lemma ChunksSendable(files: seq<Frame>)
    requires FileChunks(files)
    ensures forall f | f in files :: Sendable(f)
  {
  }

  lemma ChunksPrefix(files: seq<Frame>, k: nat)
    requires FileChunks(files) && k <= |files|
    ensures NoEof(files[..k])
  {
    hide Receiver.Chunk, Sendable;
    assert forall f | f in files[..k] :: f in files;
  }

  /** If any file's bytes differ in number from its manifest entry, neither end reports completion. */
  lemma ChangedSourceNeverCompletes(fs: FS, umask: Mode, destination: Option<Destination>, sources: seq<Source>, a: Attempt)
    requires ValidSources(sources) && !SizesKept(FileSizes(ForestManifest(sources).files), a.fileReads)
    ensures var m := ForestManifest(sources);
            PushServer(fs, umask, destination, m.roots, m.entries, ReadAll(DeliveredBytes(m, a))).Failed? &&
            PushBatch(fs, umask, destination, m, a).NotPushed?
  {
    var m := ForestManifest(sources);
    StreamSucceedsIffUnchanged(REQUEST_ID, FileSizes(m.files), a.fileReads);
    CutPushNeverCompletes(fs, umask, destination, m, a);
  }

  /** Whatever happens to a push, only paths at or below the resolved roots change, and directories toward them appear. */
  lemma PushTouchesRoots(fs: FS, umask: Mode, destination: Option<Destination>, m: BatchManifest, a: Attempt)
    requires WellFormed(fs)
    ensures var after := PushBatch(fs, umask, destination, m, a).fs;
            match DaemonRoots(fs, destination, m.roots)
            case Err(_) => after == fs
            case Ok(rootPaths) => OnlyRootsTouched(fs, after, umask, rootPaths) && (!a.reached ==> after == fs)
  {
    hide ReceiveBatch, DaemonRoots, ReadAll, DeliveredBytes;
    var roots := DaemonRoots(fs, destination, m.roots);
    if roots.Ok? {
      BatchTouchesRoots(fs, Daemon, umask, roots.value, m.entries, ReadAll(DeliveredBytes(m, a)), REQUEST_ID);
    }
  }
}
