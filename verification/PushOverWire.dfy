/**
 The push client over the wire: it reads the daemon's replies as frames, and
 reports success exactly when the daemon completed and every reply came through.
 */
module PushOverWire {
  import opened Base
  import opened Frames
  import opened Paths
  import opened Trees
  import opened FileSystem
  import opened Manifest
  import opened Overlay
  import opened Receiver
  import opened Roots
  import opened Sender
  import opened Forest
  import opened Transfer
  import opened Pull
  import opened PullTheorems
  import opened Push

  // ---------------------------------------------------------------------
  // The client's run
  // ---------------------------------------------------------------------

  /** The reply to a finished stream of `sent` bytes. */
  function CompletionVerdict(c: Codec, inc: Incoming, at: nat, sent: nat): Result<(nat, nat), TransferError>
    requires at <= |inc.frames|
  {
    match ResponseAt(c, inc, at)
    case Err(e) => Err(e)
    case Ok(PushBatchComplete(entries, bytes)) => if bytes != sent then Err(CountMismatch) else Ok((entries, bytes))
    case Ok(ErrorResponse) => Err(RemoteError)
    case Ok(_) => Err(UnexpectedResponse)
  }

  /** execute_push_manifest after the request: the verdict on what the daemon's replies and the own streaming say. */
  function PushVerdict(c: Codec, inc: Incoming, m: BatchManifest, fileReads: seq<seq<ReadBlock>>)
    : Result<(nat, nat), TransferError>
  {
    match ResponseAt(c, inc, 0)
    case Err(e) => Err(e)
    case Ok(PushBatchReady) =>
      (match SendVerdict(m, fileReads)
       case Err(e) => Err(e)
       case Ok(sent) => CompletionVerdict(c, inc, 1, sent))
    case Ok(ErrorResponse) => Err(RemoteError)
    case Ok(_) => Err(UnexpectedResponse)
  }

  /**
   Whatever replies arrive, the client reports success exactly when it was told to start, streamed everything, and the
   reply behind that reports as many bytes as the manifest has.
   */
  lemma PushVerdictIff(c: Codec, inc: Incoming, m: BatchManifest, fileReads: seq<seq<ReadBlock>>, entries: nat, bytes: nat)
    ensures PushVerdict(c, inc, m, fileReads) == Ok((entries, bytes)) <==>
            ResponseAt(c, inc, 0) == Ok(PushBatchReady) && StreamComplete(m, fileReads) && bytes == m.totalBytes &&
            |inc.frames| > 1 && ResponseAt(c, inc, 1) == Ok(PushBatchComplete(entries, bytes))
  {
    hide StreamFiles;
  }

  /** Waits for the daemon to be ready, streams, and reads the completion. */
  method ExecutePushManifest(writer: Writer, stream: Reader, c: Codec, m: BatchManifest, read: FileReader)
    returns (r: Result<(nat, nat), TransferError>)
    requires writer.buffer == [] && writer.capacity == 0
    modifies writer, stream
    ensures var inc := ReadAll(old(stream.input));
            r == PushVerdict(c, inc, m, ReadsOf(read, m.files)) &&
            (ResponseAt(c, inc, 0) != Ok(PushBatchReady) ==> writer.output == old(writer.output)) &&
            (ResponseAt(c, inc, 0) == Ok(PushBatchReady) ==>
               writer.output == old(writer.output) + StreamedBytes(m, ReadsOf(read, m.files)))
  {
    ghost var start := stream.input;
    assert stream.input == AfterFrames(start, 0);
    hide ReadAll, AfterFrames, ResponseAt, SendVerdict, StreamComplete, StreamedBytes, ReadsOf;
    var first := ReadResponse(stream, c, start, 0);
    OkMeansThere(c, ReadAll(start), 0);
    if first.Err? {
      return Err(first.error);
    }
    if first.value.ErrorResponse? {
      return Err(RemoteError);
    }
    if !first.value.PushBatchReady? {
      return Err(UnexpectedResponse);
    }
    var sent := SendPushStream(writer, m, read);
    if sent.Err? {
      return Err(sent.error);
    }
    var last := ReadResponse(stream, c, start, 1);
    if last.Err? {
      return Err(last.error);
    }
    match last.value {
      case PushBatchComplete(entries, bytes) =>
        r := if bytes != sent.value then Err(CountMismatch) else Ok((entries, bytes));
      case ErrorResponse => r := Err(RemoteError);
      case _ => r := Err(UnexpectedResponse);
    }
  }

  lemma OkMeansThere(c: Codec, inc: Incoming, at: nat)
    requires at <= |inc.frames|
    ensures ResponseAt(c, inc, at).Ok? ==> at < |inc.frames|
  {
  }

  // ---------------------------------------------------------------------
  // Reading the daemon's replies, whole or cut
  // ---------------------------------------------------------------------

  function MessageFrames(c: Codec, ms: seq<Message>): (frames: seq<Frame>)
    requires RepliesFit(c, ms)
    ensures |frames| == |ms| && forall i | 0 <= i < |ms| :: Fits(c, ms[i]) && frames[i] == MessageFrame(c, ms[i])
  {
    if ms == [] then [] else [MessageFrame(c, ms[0])] + MessageFrames(c, ms[1..])
  }

  lemma {:induction false} MessageWireIsWire(c: Codec, ms: seq<Message>)
    requires RepliesFit(c, ms)
    ensures MessageWire(c, ms) == Wire(MessageFrames(c, ms))
    ensures forall f | f in MessageFrames(c, ms) :: Sendable(f)
  {
    hide EncodeFrame;
    if ms != [] {
      MessageWireIsWire(c, ms[1..]);
      assert MessageFrames(c, ms)[1..] == MessageFrames(c, ms[1..]);
    }
  }

  /** Of replies cut after `n` bytes the client sees the first few, all of them only if nothing was cut. */
  lemma RepliesArrive(c: Codec, ms: seq<Message>, n: nat) returns (k: nat)
    requires Lossless(c) && RepliesFit(c, ms) && n <= |MessageWire(c, ms)|
    ensures k <= |ms| && (k == |ms| <==> n == |MessageWire(c, ms)|)
    ensures |ReadAll(MessageWire(c, ms)[..n]).frames| == k
    ensures forall i | 0 <= i < k :: ResponseAt(c, ReadAll(MessageWire(c, ms)[..n]), i) == Ok(ms[i])
    ensures ResponseAt(c, ReadAll(MessageWire(c, ms)[..n]), k).Err?
  {
    hide ReadAll, MessageFrame, Wire, ResponseAt, Sendable, MessageWire, Lossless;
    var frames := MessageFrames(c, ms);
    MessageWireIsWire(c, ms);
    ReadAllCut(frames, n);
    WholeFramesFit(frames, n);
    k := WholeFrames(frames, n);
    assert frames[..|frames|] == frames;
    if k < |frames| {
      assert frames[..k + 1] + frames[k + 1..] == frames;
      WireAppend(frames[..k + 1], frames[k + 1..]);
    }
    var inc := ReadAll(MessageWire(c, ms)[..n]);
    forall i | 0 <= i < k
      ensures ResponseAt(c, inc, i) == Ok(ms[i])
    {
      assert frames[..k][i] == frames[i] && Fits(c, ms[i]);
      MessageArrives(c, ms[i], inc, i);
    }
    NothingMore(c, inc);
  }

  lemma NothingMore(c: Codec, inc: Incoming)
    ensures ResponseAt(c, inc, |inc.frames|).Err?
  {
  }

  // ---------------------------------------------------------------------
  // What the client reports
  // ---------------------------------------------------------------------

  /** The daemon's outcome of an attempt, and the bytes of its replies. */
  function Served(fs: FS, umask: Mode, destination: Option<Destination>, m: BatchManifest, a: Attempt): BatchOutcome {
    PushServer(fs, umask, destination, m.roots, m.entries, ReadAll(DeliveredBytes(m, a)))
  }

  function Replied(fs: FS, umask: Mode, destination: Option<Destination>, m: BatchManifest, a: Attempt): seq<Message> {
    PushReplies(fs, destination, m.roots, Served(fs, umask, destination, m, a))
  }

  /** A daemon that failed cannot be misread: cut anywhere, its replies never make the client report success. */
  lemma FailedPushNeverReported(c: Codec, fs: FS, umask: Mode, destination: Option<Destination>, m: BatchManifest, a: Attempt, n: nat)
    requires Lossless(c) && RepliesFit(c, Replied(fs, umask, destination, m, a))
    requires n <= |MessageWire(c, Replied(fs, umask, destination, m, a))|
    requires Served(fs, umask, destination, m, a).Failed?
    ensures PushVerdict(c, ReadAll(MessageWire(c, Replied(fs, umask, destination, m, a))[..n]), m, a.fileReads).Err?
  {
    hide ReadAll, MessageWire, ResponseAt, SendVerdict, DaemonRoots, PushServer, DeliveredBytes, Lossless, RepliesFit;
    var ms := Replied(fs, umask, destination, m, a);
    var inc := ReadAll(MessageWire(c, ms)[..n]);
    var k := RepliesArrive(c, ms, n);
    if k > 0 {
      assert ResponseAt(c, inc, 0) == Ok(ms[0]);
    }
    if k > 1 {
      assert ResponseAt(c, inc, 1) == Ok(ms[1]);
    }
  }

  /**
   The client reports success, over the wire, exactly when the stream reached the daemon in full, the daemon
   completed, and its replies came back in full; and then it reports the daemon's counts.
   */
  lemma PushReportedIff(c: Codec, fs: FS, umask: Mode, destination: Option<Destination>, m: BatchManifest, a: Attempt, n: nat)
    requires Lossless(c) && RepliesFit(c, Replied(fs, umask, destination, m, a)) && a.reached
    requires n <= |MessageWire(c, Replied(fs, umask, destination, m, a))|
    requires a.acked <==> n == |MessageWire(c, Replied(fs, umask, destination, m, a))|
    ensures var verdict := PushVerdict(c, ReadAll(MessageWire(c, Replied(fs, umask, destination, m, a))[..n]), m, a.fileReads);
            var r := PushBatch(fs, umask, destination, m, a);
            (verdict.Ok? <==> r.Pushed?) && (verdict.Ok? ==> verdict.value == (r.entries, r.bytes))
  {
    hide *;
    var served := Served(fs, umask, destination, m, a);
    PushBatchMeans(fs, umask, destination, m, a);
    if served.Failed? {
      FailedPushNeverReported(c, fs, umask, destination, m, a, n);
    } else {
      if !StreamComplete(m, a.fileReads) || a.delivered < |Wire(PushStream(m, a.fileReads))| {
        CutPushNeverCompletes(fs, umask, destination, m, a);
        ServedIs(fs, umask, destination, m, a);
        assert false;
      }
      CompletedReplies(fs, umask, destination, m, a);
      var k := RepliesArrive(c, Replied(fs, umask, destination, m, a), n);
      CompletedVerdict(c, ReadAll(MessageWire(c, Replied(fs, umask, destination, m, a))[..n]), m, a.fileReads, served, k);
    }
  }

  lemma ServedIs(fs: FS, umask: Mode, destination: Option<Destination>, m: BatchManifest, a: Attempt)
    ensures Served(fs, umask, destination, m, a) ==
            PushServer(fs, umask, destination, m.roots, m.entries, ReadAll(DeliveredBytes(m, a)))
  {
  }

  lemma PushBatchMeans(fs: FS, umask: Mode, destination: Option<Destination>, m: BatchManifest, a: Attempt)
    requires a.reached
    ensures var served, r := Served(fs, umask, destination, m, a), PushBatch(fs, umask, destination, m, a);
            (r.Pushed? <==> served.Completed? && a.acked && StreamComplete(m, a.fileReads) &&
                            |Wire(PushStream(m, a.fileReads))| <= a.delivered && served.bytes == m.totalBytes) &&
            (r.Pushed? ==> r.entries == served.entries && r.bytes == served.bytes)
  {
    hide PushServer, ReadAll, DeliveredBytes, StreamComplete, Wire, PushStream;
  }

  lemma CompletedReplies(fs: FS, umask: Mode, destination: Option<Destination>, m: BatchManifest, a: Attempt)
    requires Served(fs, umask, destination, m, a).Completed?
    ensures var served := Served(fs, umask, destination, m, a);
            Replied(fs, umask, destination, m, a) == [PushBatchReady, PushBatchComplete(served.entries, served.bytes)]
  {
    hide ReceiveBatch, ReadAll, DeliveredBytes, DaemonRoots;
  }

  lemma CompletedVerdict(c: Codec, inc: Incoming, m: BatchManifest, fileReads: seq<seq<ReadBlock>>, served: BatchOutcome, k: nat)
    requires served.Completed? && k <= 2 && |inc.frames| == k && StreamComplete(m, fileReads)
    requires var ms := [PushBatchReady, PushBatchComplete(served.entries, served.bytes)];
             forall i | 0 <= i < k :: ResponseAt(c, inc, i) == Ok(ms[i])
    requires ResponseAt(c, inc, k).Err?
    ensures var verdict := PushVerdict(c, inc, m, fileReads);
            (verdict.Ok? <==> k == 2 && served.bytes == m.totalBytes) &&
            (verdict.Ok? ==> verdict.value == (served.entries, served.bytes))
  {
    hide ResponseAt, StreamFiles;
    if k > 0 {
      assert ResponseAt(c, inc, 0) == Ok(PushBatchReady);
    }
    if k > 1 {
      assert ResponseAt(c, inc, 1) == Ok(PushBatchComplete(served.entries, served.bytes));
    }
  }

  /** The push round trip as the client sees it: with nothing cut, it reports success exactly when nothing is in the way. */
  lemma RoundTripOverWire(c: Codec, fs: FS, umask: Mode, destination: Option<Destination>, rootPaths: seq<Path>,
                          sources: seq<Source>, a: Attempt)
    requires ValidSources(sources) && Unchanged(sources, a.fileReads)
    requires WellFormed(fs) && DaemonRoots(fs, destination, RootsOf(sources)) == Ok(rootPaths)
    requires a.reached && a.acked && |Wire(PushStream(ForestManifest(sources), a.fileReads))| <= a.delivered
    requires Lossless(c) && RepliesFit(c, Replied(fs, umask, destination, ForestManifest(sources), a))
    ensures |rootPaths| == |sources|
    ensures var m := ForestManifest(sources);
            var verdict := PushVerdict(c, ReadAll(MessageWire(c, Replied(fs, umask, destination, m, a))), m, a.fileReads);
            var served := Served(fs, umask, destination, m, a);
            (verdict.Ok? <==> ClearWay(fs, rootPaths, sources)) && (verdict.Ok? <==> served.Completed?) &&
            (verdict.Ok? ==> verdict.value == (|m.entries|, m.totalBytes) == (served.entries, served.bytes) &&
                             WellFormed(served.fs) && LaidOver(fs, served.fs, Daemon, umask, rootPaths, sources))
  {
    hide *;
    var m := ForestManifest(sources);
    var wire := MessageWire(c, Replied(fs, umask, destination, m, a));
    PushRoundTrip(fs, umask, destination, rootPaths, sources, a);
    PushBatchMeans(fs, umask, destination, m, a);
    PushReportedIff(c, fs, umask, destination, m, a, |wire|);
    assert wire[..|wire|] == wire;
    PushedFs(fs, umask, destination, m, a);
    if Served(fs, umask, destination, m, a).Completed? {
      UnchangedTotal(fs, umask, destination, rootPaths, sources, a);
    }
  }

  lemma PushedFs(fs: FS, umask: Mode, destination: Option<Destination>, m: BatchManifest, a: Attempt)
    requires a.reached
    ensures PushBatch(fs, umask, destination, m, a).fs == Served(fs, umask, destination, m, a).fs
  {
    hide PushServer, ReadAll, DeliveredBytes, FullyDelivered;
  }

  /** A completed push of an unchanged forest has written the manifest's total. */
  lemma UnchangedTotal(fs: FS, umask: Mode, destination: Option<Destination>, rootPaths: seq<Path>, sources: seq<Source>, a: Attempt)
    requires ValidSources(sources) && Unchanged(sources, a.fileReads)
    requires WellFormed(fs) && DaemonRoots(fs, destination, RootsOf(sources)) == Ok(rootPaths) && |rootPaths| == |sources|
    requires a.reached && a.acked && |Wire(PushStream(ForestManifest(sources), a.fileReads))| <= a.delivered
    requires Served(fs, umask, destination, ForestManifest(sources), a).Completed?
    ensures Served(fs, umask, destination, ForestManifest(sources), a).bytes == ForestManifest(sources).totalBytes
    ensures StreamComplete(ForestManifest(sources), a.fileReads)
  {
    var m := ForestManifest(sources);
    DaemonAndLocalAgree(fs, destination.value, RootsOf(sources));
    ResolvedRootsAreSeparate(fs, destination.value, RootsOf(sources));
    PushStreamArrives(sources, a);
    assert m.roots == RootsOf(sources);
    hide DaemonRoots, LocalRoots, ReadAll, ReceiveBatch, ForestManifest, DeliveredBytes, ClearWay, LaidOver, Wire;
    ForestDelivered(fs, Daemon, umask, rootPaths, sources, a.fileReads, ReadAll(DeliveredBytes(m, a)));
  }

  /** If the stream did not arrive to its last byte, the daemon does not complete and the client reports no success. */
  lemma CutPushNeverReported(c: Codec, fs: FS, umask: Mode, destination: Option<Destination>, m: BatchManifest, a: Attempt, n: nat)
    requires Lossless(c) && RepliesFit(c, Replied(fs, umask, destination, m, a))
    requires n <= |MessageWire(c, Replied(fs, umask, destination, m, a))|
    requires !StreamComplete(m, a.fileReads) || a.delivered < |Wire(PushStream(m, a.fileReads))|
    ensures Served(fs, umask, destination, m, a).Failed?
    ensures PushVerdict(c, ReadAll(MessageWire(c, Replied(fs, umask, destination, m, a))[..n]), m, a.fileReads).Err?
  {
    hide *;
    CutPushNeverCompletes(fs, umask, destination, m, a);
    ServedIs(fs, umask, destination, m, a);
    FailedPushNeverReported(c, fs, umask, destination, m, a, n);
  }

  /** If any file's byte count differs from its manifest entry, neither end reports completion. */
  lemma ChangedSourceNeverReported(c: Codec, fs: FS, umask: Mode, destination: Option<Destination>, sources: seq<Source>,
                                   a: Attempt, n: nat)
    requires Lossless(c) && RepliesFit(c, Replied(fs, umask, destination, ForestManifest(sources), a))
    requires n <= |MessageWire(c, Replied(fs, umask, destination, ForestManifest(sources), a))|
    requires !SizesKept(FileSizes(ForestManifest(sources).files), a.fileReads)
    ensures var m := ForestManifest(sources);
            Served(fs, umask, destination, m, a).Failed? &&
            PushVerdict(c, ReadAll(MessageWire(c, Replied(fs, umask, destination, m, a))[..n]), m, a.fileReads).Err?
  {
    hide *;
    var m := ForestManifest(sources);
    StreamSucceedsIffUnchanged(REQUEST_ID, FileSizes(m.files), a.fileReads);
    NotComplete(m, a.fileReads);
    CutPushNeverReported(c, fs, umask, destination, m, a, n);
  }

  lemma NotComplete(m: BatchManifest, fileReads: seq<seq<ReadBlock>>)
    ensures StreamComplete(m, fileReads) ==> StreamFiles(REQUEST_ID, FileSizes(m.files), fileReads).result.Ok?
  {
  }
}
