/**
 Whole transfers: a pull and a push from the manifest on one side to the file
 system on the other, over the bytes of the connection.
 */
module Transfer {
  import opened Base
  import opened Frames
  import opened Trees
  import opened FileSystem
  import opened Manifest
  import opened Overlay
  import opened Receiver
  import opened Slices
  import opened Roots
  import opened Sender

  datatype Message =
    | PullBatchMetadata(roots: seq<TransferRoot>, entries: seq<TransferEntry>, totalBytes: nat)
    | PullBatchComplete(entriesSent: nat, bytesSent: nat)
    | PushBatchReady
    | PushBatchComplete(entriesWritten: nat, bytesWritten: nat)
    | ErrorResponse

  /** How messages become payloads; JSON's own rules are not modelled. */
  datatype Codec = Codec(encode: Message -> seq<Byte>, decode: seq<Byte> -> Option<Message>)

  ghost predicate Lossless(c: Codec) {
    forall m: Message :: c.decode(c.encode(m)) == Some(m)
  }

  predicate Fits(c: Codec, m: Message) {
    |c.encode(m)| <= MAX_PAYLOAD_LEN
  }

  function MessageFrame(c: Codec, m: Message): Frame
    requires Fits(c, m)
  {
    ControlFrame(Response, REQUEST_ID, c.encode(m))
  }

  function FileEof(): Frame {
    StreamFrame(REQUEST_ID, StreamChannel.File, true, [])
  }

  /** read_response: the frame at `at` as a control message. */
  function ResponseAt(c: Codec, inc: Incoming, at: nat): Result<Message, TransferError>
    requires at <= |inc.frames|
  {
    if at == |inc.frames| then Err(OnWire(inc.error))
    else if inc.frames[at].header.kind != Response then
      Err(OnWire(UnexpectedFrameKind(Response, inc.frames[at].header.kind)))
    else
      match c.decode(inc.frames[at].payload)
      case None => Err(UnexpectedResponse)
      case Some(m) => Ok(m)
  }

  function From(inc: Incoming, at: nat): Incoming
    requires at <= |inc.frames|
  {
    Incoming(inc.frames[at..], inc.error)
  }

  // ---------------------------------------------------------------------
  // Pull: the daemon's side
  // ---------------------------------------------------------------------

  function Metadata(sources: seq<Source>): Message {
    var m := ForestManifest(sources);
    PullBatchMetadata(m.roots, m.entries, m.totalBytes)
  }

  function PullCompletion(sources: seq<Source>): Message {
    var m := ForestManifest(sources);
    PullBatchComplete(|m.entries|, m.totalBytes)
  }

  function FileFrames(sources: seq<Source>, fileReads: seq<seq<ReadBlock>>): Sending {
    StreamFiles(REQUEST_ID, FileSizes(ForestManifest(sources).files), fileReads)
  }

  /** What the files of a pull yield, opened by the paths in its manifest. */
  function PullReads(read: FileReader, sources: seq<Source>): seq<seq<ReadBlock>> {
    ReadsOf(read, ForestManifest(sources).files)
  }

  /** Everything the daemon sends for a pull that succeeds. */
  function PullFrames(c: Codec, sources: seq<Source>, fileReads: seq<seq<ReadBlock>>): seq<Frame>
    requires Fits(c, Metadata(sources)) && Fits(c, PullCompletion(sources))
  {
    [MessageFrame(c, Metadata(sources))] + FileFrames(sources, fileReads).frames
    + [FileEof(), MessageFrame(c, PullCompletion(sources))]
  }

  /** write_json_frame, straight onto the connection. */
  method WriteMessage(writer: Writer, m: Message, c: Codec) returns (r: Result<(), TransferError>)
    requires writer.buffer == [] && writer.capacity == 0
    modifies writer`output, writer`buffer
    ensures writer.buffer == []
    ensures r.Ok? <==> Fits(c, m)
    ensures writer.output == old(writer.output) + if Fits(c, m) then EncodeFrame(MessageFrame(c, m)) else []
  {
    hide EncodeHeader;
    var payload := c.encode(m);
    var wrote := WriteFrame(writer, Response, REQUEST_ID, payload);
    if wrote.Err? {
      writer.Flush();
      return Err(OnWire(wrote.error));
    }
    r := Ok(());
  }

  /** The empty EOF frame after the last file, straight onto the connection. */
  method WriteFileEof(writer: Writer)
    requires writer.buffer == [] && writer.capacity == 0
    modifies writer`output, writer`buffer
    ensures writer.buffer == [] && writer.output == old(writer.output) + EncodeFrame(FileEof())
  {
    hide StreamFlags, EncodeHeader;
    var wrote := WriteStreamFrame(writer, REQUEST_ID, StreamChannel.File, true, []);
  }

  /** What a pull that gives up while streaming has sent by then. */
  function DroppedPull(c: Codec, sources: seq<Source>, fileReads: seq<seq<ReadBlock>>): seq<Byte>
    requires Fits(c, Metadata(sources))
  {
    EncodeFrame(MessageFrame(c, Metadata(sources))) + PassedOn(FileFrames(sources, fileReads).frames)
  }

  /** What a failed pull leaves on the connection: nothing, or the metadata and file frames up to some write boundary. */
  ghost predicate PullCutShort(c: Codec, sources: seq<Source>, fileReads: seq<seq<ReadBlock>>, sent: seq<Byte>) {
    sent == [] ||
    (Fits(c, Metadata(sources)) &&
     exists cut :: AtBoundary(FileFrames(sources, fileReads).frames, cut) &&
       sent == EncodeFrame(MessageFrame(c, Metadata(sources))) + cut)
  }

  /**
   handle_pull_batch. It succeeds exactly when the root names are distinct, the metadata fits a frame and no
   source changed size; then the comparison of totals has passed too.
   */
  method HandlePullBatch(writer: Writer, sources: seq<Source>, read: FileReader, c: Codec)
    returns (r: Result<(), TransferError>)
    requires writer.buffer == [] && writer.capacity == 0
    requires ValidSources(sources) && Fits(c, PullCompletion(sources))
    modifies writer
    ensures writer.buffer == [] && writer.capacity == 0
    ensures r.Ok? <==> DistinctRootNames(RootsOf(sources)) && Fits(c, Metadata(sources)) &&
                       SizesKept(FileSizes(ForestManifest(sources).files), PullReads(read, sources))
    ensures r.Ok? ==> writer.output == old(writer.output) + Wire(PullFrames(c, sources, PullReads(read, sources)))
    ensures r.Err? && DistinctRootNames(RootsOf(sources)) && Fits(c, Metadata(sources)) ==>
              writer.output == old(writer.output) + DroppedPull(c, sources, PullReads(read, sources))
    ensures r.Err? && !(DistinctRootNames(RootsOf(sources)) && Fits(c, Metadata(sources))) ==>
              writer.output == old(writer.output)
    ensures r.Err? ==> old(writer.output) <= writer.output &&
                       PullCutShort(c, sources, PullReads(read, sources), writer.output[|old(writer.output)|..])
  {
    ghost var start, fileReads := writer.output, PullReads(read, sources);
    NothingSent(c, sources, fileReads, start);
    TotalsAgree(sources, fileReads);
    var built := BuildBatchManifest(sources);
    if built.Err? {
      return Err(InBatchManifest(built.error));
    }
    var manifest := built.value;
    var metadata := PullBatchMetadata(manifest.roots, manifest.entries, manifest.totalBytes);
    var completion := PullBatchComplete(|manifest.entries|, manifest.totalBytes);
    assert fileReads == ReadsOf(read, manifest.files);
    assert metadata == Metadata(sources) && completion == PullCompletion(sources);
    hide *;
    var wrote := WriteMessage(writer, metadata, c);
    if wrote.Err? {
      assert start + [] == start;
      return Err(wrote.error);
    }
    var streamed := StreamBatchFiles(writer, REQUEST_ID, manifest.files, read);
    if streamed.Err? {
      PullStopped(c, sources, fileReads, start, writer.output, streamed.error);
      return Err(streamed.error);
    }
    PullStreamed(c, sources, fileReads, start, writer.output, streamed);
    if streamed.value != manifest.totalBytes {
      // The per-file comparison has already ruled this out.
      assert false;
    }
    WriteFileEof(writer);
    wrote := WriteMessage(writer, completion, c);
    r := Ok(());
  }

  lemma NothingSent(c: Codec, sources: seq<Source>, fileReads: seq<seq<ReadBlock>>, start: seq<Byte>)
    ensures PullCutShort(c, sources, fileReads, start[|start|..])
  {
  }

  lemma TotalsAgree(sources: seq<Source>, fileReads: seq<seq<ReadBlock>>)
    requires ValidSources(sources)
    ensures var m := ForestManifest(sources);
            var sent := StreamFiles(REQUEST_ID, FileSizes(m.files), fileReads).result;
            (sent.Ok? <==> SizesKept(FileSizes(m.files), fileReads)) && (sent.Ok? ==> sent == Ok(m.totalBytes))
  {
    var m := ForestManifest(sources);
    StreamSucceedsIffUnchanged(REQUEST_ID, FileSizes(m.files), fileReads);
    ForestShape(sources, 0);
  }

  lemma PullStopped(c: Codec, sources: seq<Source>, fileReads: seq<seq<ReadBlock>>, start: seq<Byte>,
                    output: seq<Byte>, error: TransferError)
    requires Fits(c, Metadata(sources))
    requires StreamEnds(StreamFiles(REQUEST_ID, FileSizes(ForestManifest(sources).files), fileReads),
                        start + EncodeFrame(MessageFrame(c, Metadata(sources))), output, Err(error))
    ensures output == start + DroppedPull(c, sources, fileReads)
    ensures start <= output && PullCutShort(c, sources, fileReads, output[|start|..])
  {
    hide AtBoundary, Metadata, EncodeFrame, StreamFiles, PassedOn;
    var meta, cut := EncodeFrame(MessageFrame(c, Metadata(sources))), PassedOn(FileFrames(sources, fileReads).frames);
    PassedOnIsBoundary(FileFrames(sources, fileReads).frames);
    Associate(start, meta, cut);
    assert output[|start|..] == meta + cut;
  }

  lemma PullStreamed(c: Codec, sources: seq<Source>, fileReads: seq<seq<ReadBlock>>, start: seq<Byte>,
                     output: seq<Byte>, streamed: Result<nat, TransferError>)
    requires ValidSources(sources) && streamed.Ok? && Fits(c, Metadata(sources)) && Fits(c, PullCompletion(sources))
    requires StreamEnds(StreamFiles(REQUEST_ID, FileSizes(ForestManifest(sources).files), fileReads),
                        start + EncodeFrame(MessageFrame(c, Metadata(sources))), output, streamed)
    ensures streamed.value == ForestManifest(sources).totalBytes
    ensures SizesKept(FileSizes(ForestManifest(sources).files), fileReads)
    ensures output + EncodeFrame(FileEof()) + EncodeFrame(MessageFrame(c, PullCompletion(sources)))
         == start + Wire(PullFrames(c, sources, fileReads))
  {
    TotalsAgree(sources, fileReads);
    PullFramesWire(c, sources, fileReads);
    hide *;
    var m, e, p := EncodeFrame(MessageFrame(c, Metadata(sources))), EncodeFrame(FileEof()),
                   EncodeFrame(MessageFrame(c, PullCompletion(sources)));
    StreamEndsOk(StreamFiles(REQUEST_ID, FileSizes(ForestManifest(sources).files), fileReads), start + m, output, streamed);
    AssociateFive(start, m, Wire(StreamFiles(REQUEST_ID, FileSizes(ForestManifest(sources).files), fileReads).frames), e, p);
  }

  lemma StreamEndsOk(sending: Sending, start: seq<Byte>, output: seq<Byte>, r: Result<nat, TransferError>)
    requires StreamEnds(sending, start, output, r) && r.Ok?
    ensures output == start + Wire(sending.frames) && sending.result == r
  {
  }

  lemma PullFramesWire(c: Codec, sources: seq<Source>, fileReads: seq<seq<ReadBlock>>)
    requires Fits(c, Metadata(sources)) && Fits(c, PullCompletion(sources))
    ensures Wire(PullFrames(c, sources, fileReads)) ==
            EncodeFrame(MessageFrame(c, Metadata(sources))) +
            (Wire(StreamFiles(REQUEST_ID, FileSizes(ForestManifest(sources).files), fileReads).frames) +
             (EncodeFrame(FileEof()) + EncodeFrame(MessageFrame(c, PullCompletion(sources)))))
  {
    FramesWire(MessageFrame(c, Metadata(sources)), FileFrames(sources, fileReads).frames,
               FileEof(), MessageFrame(c, PullCompletion(sources)));
  }

  lemma FramesWire(first: Frame, files: seq<Frame>, eof: Frame, last: Frame)
    ensures Wire([first] + files + [eof, last]) ==
            EncodeFrame(first) + (Wire(files) + (EncodeFrame(eof) + EncodeFrame(last)))
  {
    hide *;
    WireAppend([first] + files, [eof, last]);
    WireAppend([first], files);
    WireOne(first);
    WireTwo(eof, last);
    AssociateFive([], EncodeFrame(first), Wire(files), EncodeFrame(eof), EncodeFrame(last));
  }

  lemma WireTwo(f: Frame, g: Frame)
    ensures Wire([f, g]) == EncodeFrame(f) + EncodeFrame(g)
  {
    assert [f, g][1..] == [g];
    WireOne(g);
  }

  // ---------------------------------------------------------------------
  // Pull: the client's side
  // ---------------------------------------------------------------------

  datatype PullOutcome =
    | PullDone(fs: FS, next: nat, entries: nat, bytes: nat, totalBytes: nat)
    | PullFailed(fs: FS, error: TransferError)

  /** What the client makes of the daemon's frames after the batch data, from `at` on. */
  function FinishPull(c: Codec, inc: Incoming, after: FS, at: nat, entries: nat, bytes: nat, totalBytes: nat): PullOutcome
    requires at <= |inc.frames|
  {
    match ResponseAt(c, inc, at)
    case Err(e) => PullFailed(after, e)
    case Ok(PullBatchComplete(entriesSent, bytesSent)) =>
      if entriesSent != entries || bytesSent != bytes then PullFailed(after, CountMismatch)
      else PullDone(after, at + 1, entries, bytes, totalBytes)
    case Ok(ErrorResponse) => PullFailed(after, RemoteError)
    case Ok(_) => PullFailed(after, UnexpectedResponse)
  }

  function PullClient(fs: FS, umask: Mode, destination: Destination, c: Codec, inc: Incoming): PullOutcome {
    match ResponseAt(c, inc, 0)
    case Err(e) => PullFailed(fs, e)
    case Ok(PullBatchMetadata(roots, entries, totalBytes)) =>
      (match LocalRoots(fs, destination, roots)
       case Err(e) => PullFailed(fs, e)
       case Ok(rootPaths) =>
         match ReceiveBatch(fs, Client, umask, rootPaths, entries, From(inc, 1), REQUEST_ID)
         case Failed(after, e) => PullFailed(after, e)
         case Completed(after, next, n, bytes) =>
           FinishPull(c, inc, after, 1 + next, n, bytes, totalBytes))
    case Ok(ErrorResponse) => PullFailed(fs, RemoteError)
    case Ok(_) => PullFailed(fs, UnexpectedResponse)
  }
}
