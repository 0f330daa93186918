/** What a pull guarantees from one end to the other. */
module PullTheorems {
  import opened Base
  import opened Frames
  import opened Paths
  import opened Trees
  import opened FileSystem
  import opened Manifest
  import opened Overlay
  import opened Receiver
  import opened Slices
  import opened Roots
  import opened Sender
  import opened Delivery
  import opened Forest
  import opened Transfer
  import opened Pull

  lemma MessageArrives(c: Codec, m: Message, inc: Incoming, at: nat)
    requires Lossless(c) && Fits(c, m) && at < |inc.frames| && inc.frames[at] == MessageFrame(c, m)
    ensures ResponseAt(c, inc, at) == Ok(m)
  {
    assert c.decode(c.encode(m)) == Some(m);
  }

  lemma {:induction false} StreamedSendable(rid: U32, sizes: seq<nat>, fileReads: seq<seq<ReadBlock>>)
    ensures forall f | f in StreamFiles(rid, sizes, fileReads).frames :: Sendable(f)
  {
    StreamedFrames(rid, sizes, fileReads);
  }

  /** What the client reads when the daemon's pull has succeeded and `tail` follows on the connection. */
  lemma PullFramesArrive(c: Codec, sources: seq<Source>, fileReads: seq<seq<ReadBlock>>, tail: seq<Byte>)
    requires Fits(c, Metadata(sources)) && Fits(c, PullCompletion(sources))
    ensures var input := Wire(PullFrames(c, sources, fileReads)) + tail;
            var inc, n := ReadAll(input), |FileFrames(sources, fileReads).frames|;
            |inc.frames| >= n + 3 &&
            inc.frames[0] == MessageFrame(c, Metadata(sources)) &&
            inc.frames[n + 2] == MessageFrame(c, PullCompletion(sources)) &&
            Occurs(From(inc, 1).frames, 0, FileFrames(sources, fileReads).frames + [FileEof()]) &&
            AfterFrames(input, n + 3) == tail
  {
    hide *;
    PullFramesAre(c, sources, fileReads);
    FramesArrive(MessageFrame(c, Metadata(sources)), FileFrames(sources, fileReads).frames, FileEof(),
                 MessageFrame(c, PullCompletion(sources)), tail);
  }

  lemma PullFramesAre(c: Codec, sources: seq<Source>, fileReads: seq<seq<ReadBlock>>)
    requires Fits(c, Metadata(sources)) && Fits(c, PullCompletion(sources))
    ensures PullFrames(c, sources, fileReads) ==
            [MessageFrame(c, Metadata(sources))] + FileFrames(sources, fileReads).frames
            + [FileEof(), MessageFrame(c, PullCompletion(sources))]
    ensures Sendable(MessageFrame(c, Metadata(sources))) && Sendable(MessageFrame(c, PullCompletion(sources)))
    ensures Sendable(FileEof()) && forall f | f in FileFrames(sources, fileReads).frames :: Sendable(f)
  {
    StreamedSendable(REQUEST_ID, FileSizes(ForestManifest(sources).files), fileReads);
  }

  lemma FramesArrive(first: Frame, files: seq<Frame>, eof: Frame, last: Frame, tail: seq<Byte>)
    requires Sendable(first) && Sendable(eof) && Sendable(last) && forall f | f in files :: Sendable(f)
    ensures var input := Wire([first] + files + [eof, last]) + tail;
            var inc, n := ReadAll(input), |files|;
            |inc.frames| >= n + 3 && inc.frames[0] == first && inc.frames[n + 2] == last &&
            Occurs(From(inc, 1).frames, 0, files + [eof]) && AfterFrames(input, n + 3) == tail
  {
    hide *;
    var all := [first] + files + [eof, last];
    assert forall f | f in all :: f == first || f in files || f == eof || f == last;
    ReadAllWire(all, tail);
    AfterWire(all, tail);
    assert all + ReadAll(tail).frames == [first] + (files + [eof]) + ([last] + ReadAll(tail).frames);
    InTheMiddle(ReadAll(Wire(all) + tail), first, files + [eof], [last] + ReadAll(tail).frames);
  }

  lemma InTheMiddle(inc: Incoming, first: Frame, mid: seq<Frame>, rest: seq<Frame>)
    requires inc.frames == [first] + mid + rest
    ensures |inc.frames| >= 1 && Occurs(From(inc, 1).frames, 0, mid)
  {
    assert inc.frames[1..] == mid + rest;
  }

  /**
   The pull round trip, over every forest, every way the reads fall, every file system and every stream that
   follows: the client completes exactly when nothing is in the forest's way, both ends report the same number
   of entries and bytes, exactly the daemon's bytes are consumed, and the forest lies over the destination.
   */
  lemma PullRoundTrip(fs: FS, umask: Mode, destination: Destination, rootPaths: seq<Path>, c: Codec,
                      sources: seq<Source>, fileReads: seq<seq<ReadBlock>>, tail: seq<Byte>)
    requires Lossless(c) && Fits(c, Metadata(sources)) && Fits(c, PullCompletion(sources))
    requires ValidSources(sources) && Unchanged(sources, fileReads)
    requires WellFormed(fs) && LocalRoots(fs, destination, RootsOf(sources)) == Ok(rootPaths)
    ensures |rootPaths| == |sources|
    ensures var input, m := Wire(PullFrames(c, sources, fileReads)) + tail, ForestManifest(sources);
            var r := PullClient(fs, umask, destination, c, ReadAll(input));
            (r.PullDone? <==> ClearWay(fs, rootPaths, sources)) &&
            (r.PullDone? ==>
               r.entries == |m.entries| && r.bytes == r.totalBytes == m.totalBytes &&
               r.next <= |ReadAll(input).frames| && AfterFrames(input, r.next) == tail &&
               WellFormed(r.fs) && LaidOver(fs, r.fs, Client, umask, rootPaths, sources))
  {
    var input, m := Wire(PullFrames(c, sources, fileReads)) + tail, ForestManifest(sources);
    var inc := ReadAll(input);
    ResolvedRootsAreSeparate(fs, destination, RootsOf(sources));
    assert Metadata(sources) == PullBatchMetadata(m.roots, m.entries, m.totalBytes);
    assert PullCompletion(sources) == PullBatchComplete(|m.entries|, m.totalBytes);
    assert m.roots == RootsOf(sources);
    PullFramesArrive(c, sources, fileReads, tail);
    MessageArrives(c, Metadata(sources), inc, 0);
    var n := |FileFrames(sources, fileReads).frames|;
    MessageArrives(c, PullCompletion(sources), inc, n + 2);
    PullStages(fs, umask, destination, c, inc);
    BodyStages(fs, umask, destination, c, inc, m.roots, m.entries, m.totalBytes);
    hide *;
    ForestDelivered(fs, Client, umask, rootPaths, sources, fileReads, From(inc, 1));
    var b := ReceiveBatch(fs, Client, umask, rootPaths, m.entries, From(inc, 1), REQUEST_ID);
    if b.Completed? {
      FinishStages(c, inc, b.fs, n + 2, |m.entries|, m.totalBytes);
    }
  }

  lemma FinishStages(c: Codec, inc: Incoming, after: FS, at: nat, entries: nat, bytes: nat)
    requires at <= |inc.frames| && ResponseAt(c, inc, at) == Ok(PullBatchComplete(entries, bytes))
    ensures FinishPull(c, inc, after, at, entries, bytes, bytes) == PullDone(after, at + 1, entries, bytes, bytes)
  {
  }

  /** Into a destination where the roots do not exist yet, the pulled forest is an exact copy. */
  lemma PullIsExactCopy(fs: FS, umask: Mode, destination: Destination, rootPaths: seq<Path>, c: Codec,
                        sources: seq<Source>, fileReads: seq<seq<ReadBlock>>, tail: seq<Byte>)
    requires Lossless(c) && Fits(c, Metadata(sources)) && Fits(c, PullCompletion(sources))
    requires ValidSources(sources) && Unchanged(sources, fileReads)
    requires WellFormed(fs) && LocalRoots(fs, destination, RootsOf(sources)) == Ok(rootPaths)
    requires forall i | 0 <= i < |rootPaths| :: rootPaths[i] !in fs && !FileAbove(fs, rootPaths[i])
    requires forall i | 0 <= i < |sources| :: ModesSet(sources[i].tree)
    ensures |rootPaths| == |sources|
    ensures var input := Wire(PullFrames(c, sources, fileReads)) + tail;
            var r := PullClient(fs, umask, destination, c, ReadAll(input));
            r.PullDone? && r.next <= |ReadAll(input).frames| && AfterFrames(input, r.next) == tail &&
            forall i | 0 <= i < |sources| :: Holds(r.fs, rootPaths[i], sources[i].tree)
  {
    PullRoundTrip(fs, umask, destination, rootPaths, c, sources, fileReads, tail);
    hide *;
    FreshIsClear(fs, rootPaths, sources);
    var r := PullClient(fs, umask, destination, c, ReadAll(Wire(PullFrames(c, sources, fileReads)) + tail));
    forall i | 0 <= i < |sources|
      ensures Holds(r.fs, rootPaths[i], sources[i].tree)
    {
      LaidOnNothing(fs, r.fs, Client, umask, rootPaths, sources, i);
    }
  }

  lemma FreshIsClear(fs: FS, rootPaths: seq<Path>, sources: seq<Source>)
    requires |rootPaths| == |sources| && WellFormed(fs)
    requires forall i | 0 <= i < |rootPaths| :: rootPaths[i] !in fs && !FileAbove(fs, rootPaths[i])
    ensures ClearWay(fs, rootPaths, sources)
  {
    hide WellFormed, FileAbove, Lookup;
    forall i, rel | 0 <= i < |sources| && Lookup(sources[i].tree, rel).Some?
      ensures !Clashes(Get(fs, rootPaths[i] + rel), KindOf(Lookup(sources[i].tree, rel).value))
    {
      NothingBelow(fs, rootPaths[i], rel);
    }
  }

  /** The entry count is the number of nodes: one entry for each path of each tree. */
  lemma {:induction false} EntriesCountNodes(sources: seq<Source>, from: nat)
    ensures |ForestTally(sources, from).entries| == NodeCount(sources)
    decreases |sources|
  {
    if sources != [] {
      EntriesCountNodes(sources[1..], from + 1);
      TallyWalkShape(from, sources[0].Path(), SourceVisits(sources[0].tree));
      hide TallyWalk, SourceVisits;
    }
  }

  function NodeCount(sources: seq<Source>): nat {
    if sources == [] then 0 else |SourceVisits(sources[0].tree)| + NodeCount(sources[1..])
  }

  // ---------------------------------------------------------------------
  // A source that changed
  // ---------------------------------------------------------------------

  /** No frame is an EOF chunk of the request. */
  ghost predicate NoEof(frames: seq<Frame>) {
    forall f | f in frames :: Receiver.Chunk(f, REQUEST_ID) != Ok(true)
  }

  /** Frames as the sender makes them: non-empty, non-EOF file chunks. */
  ghost predicate FileChunks(frames: seq<Frame>) {
    forall f | f in frames :: Sendable(f) && Receiver.Chunk(f, REQUEST_ID) == Ok(false) && |f.payload| > 0
  }

  /** Without an EOF chunk among the frames, no receiver completes. */
  lemma NoEofNeverCompletes(fs: FS, side: Side, umask: Mode, rootPaths: seq<Path>, entries: seq<TransferEntry>,
                            inc: Incoming)
    requires NoEof(inc.frames)
    ensures ReceiveBatch(fs, side, umask, rootPaths, entries, inc, REQUEST_ID).Failed?
  {
    hide Receiver.Chunk, ReceiveEntries;
    BatchStages(fs, side, umask, rootPaths, entries, inc, REQUEST_ID);
    var r := ReceiveEntries(fs, side, umask, rootPaths, entries, inc, REQUEST_ID, 0);
    if r.Unpacked? && r.next < |inc.frames| {
      assert inc.frames[r.next] in inc.frames;
    }
  }

  /** Message text as JSON writes it: no control bytes. */
  ghost predicate TextBytes(text: seq<Byte>) {
    forall i | 0 <= i < |text| :: text[i] >= 0x20
  }

  function ErrorFrame(text: seq<Byte>): Frame
    requires |text| <= MAX_PAYLOAD_LEN
  {
    ControlFrame(Response, REQUEST_ID, text)
  }

  lemma TopByte(v: nat)
    ensures LittleEndian(v, 4)[3] == v / 256 / 256 / 256 % 256
  {
    assert LittleEndian(v, 4)[1..] == LittleEndian(v / 256, 3);
    assert LittleEndian(v / 256, 3)[1..] == LittleEndian(v / 256 / 256, 2);
    assert LittleEndian(v / 256 / 256, 2)[1..] == LittleEndian(v / 256 / 256 / 256, 1);
  }

  lemma ErrorHeaderBytes(text: seq<Byte>)
    requires |text| <= MAX_PAYLOAD_LEN
    ensures var b := EncodeHeader(ErrorFrame(text).header);
            b[1] == 0x53 && b[2] == 0x44 && b[3] == 0x42 && b[4] == 2 && b[5] == 0 && b[6] == 2 &&
            (forall i | 7 <= i < 12 :: b[i] == 0) && b[12] == 1 && (forall i | 13 <= i < 16 :: b[i] == 0) &&
            b[19] <= 1 && (forall i | 20 <= i < 24 :: b[i] == 0)
  {
    hide EncodeHeader, LittleEndian;
    var h := ErrorFrame(text).header;
    var b := EncodeHeader(h);
    HeaderSlices(h);
    SmallFields();
    TopByte(h.payloadLen);
    assert b[4] == b[4..6][0] && b[5] == b[4..6][1] && b[6] == b[6..8][0];
    assert b[19] == b[16..20][3];
  }

  lemma SmallFields()
    ensures LittleEndian(2, 2) == [2, 0] && LittleEndian(0, 4) == [0, 0, 0, 0] && LittleEndian(1, 4) == [1, 0, 0, 0]
  {
    assert LittleEndian(0, 1) == [0] && LittleEndian(0, 2) == [0, 0] && LittleEndian(0, 3) == [0, 0, 0];
  }

  lemma AcceptedStart(b: seq<Byte>)
    requires |b| == HEADER_LEN
    ensures DecodeHeader(b).Ok? ==> b[0] == 0x52 && b[1] == 0x53 && b[2] == 0x44 && b[3] == 0x42 && b[4] == 2
  {
    if DecodeHeader(b).Ok? {
      assert b[0..4] == MAGIC;
      assert FromLittleEndian(b[4..6]) == 2;
      assert b[4..6][1..][1..] == [];
    }
  }

  /** The start of a header cannot be found later in the header, across its end, or in text. */
  lemma MagicOnlyAtStart(e: seq<Byte>, k: nat)
    requires 0 < k && k + HEADER_LEN <= |e|
    requires e[1] == 0x53 && e[2] == 0x44 && e[3] == 0x42 && e[4] == 2 && e[5] == 0 && e[6] == 2
    requires (forall i | 7 <= i < 12 :: e[i] == 0) && e[12] == 1 && forall i | 13 <= i < 16 :: e[i] == 0
    requires e[19] <= 1 && forall i | 20 <= i < 24 :: e[i] == 0
    requires forall i | HEADER_LEN <= i < |e| :: e[i] >= 0x20
    ensures !(e[k] == 0x52 && e[k + 1] == 0x53 && e[k + 2] == 0x44 && e[k + 3] == 0x42 && e[k + 4] == 2)
  {
  }

  /** No frame begins inside an error response: reading from its middle fails at once. */
  lemma NothingInsideError(text: seq<Byte>, k: nat)
    requires |text| <= MAX_PAYLOAD_LEN && TextBytes(text)
    requires 0 < k <= |EncodeFrame(ErrorFrame(text))|
    ensures ReadFrame(EncodeFrame(ErrorFrame(text))[k..]).Err?
  {
    var e := EncodeFrame(ErrorFrame(text));
    var input := e[k..];
    ErrorHeaderBytes(text);
    hide EncodeHeader;
    if |input| >= HEADER_LEN {
      var b := input[..HEADER_LEN];
      AcceptedStart(b);
      hide DecodeHeader;
      assert forall i | HEADER_LEN <= i < |e| :: e[i] == text[i - HEADER_LEN];
      MagicOnlyAtStart(e, k);
      assert b[0] == e[k] && b[1] == e[k + 1] && b[2] == e[k + 2] && b[3] == e[k + 3] && b[4] == e[k + 4];
    }
  }

  /** A header whose payload was lost, with an error response behind it, yields at most that one frame. */
  lemma OrphanHeader(h: FrameHeader, text: seq<Byte>)
    requires |text| <= MAX_PAYLOAD_LEN && TextBytes(text)
    requires h.version == PROTOCOL_VERSION && 0 < h.payloadLen <= MAX_PAYLOAD_LEN
    ensures forall f | f in ReadAll(EncodeHeader(h) + EncodeFrame(ErrorFrame(text))).frames :: f.header == h
  {
    var e := EncodeFrame(ErrorFrame(text));
    var input := EncodeHeader(h) + e;
    assert input[..HEADER_LEN] == EncodeHeader(h);
    HeaderRoundTrip(h);
    hide EncodeHeader, DecodeHeader, EncodeFrame;
    if |e| >= h.payloadLen {
      assert input[HEADER_LEN + h.payloadLen..] == e[h.payloadLen..];
      NothingInsideError(text, h.payloadLen);
    }
  }

  lemma ChunkOfHeader(f: Frame, g: Frame, rid: U32)
    requires f.header == g.header
    ensures Receiver.Chunk(f, rid) == Receiver.Chunk(g, rid)
  {
  }

  /** After any write-boundary cut of the file frames, an error response leaves no EOF chunk to be read. */
  lemma CutThenErrorHasNoEof(frames: seq<Frame>, cut: seq<Byte>, text: seq<Byte>)
    requires FileChunks(frames)
    requires AtBoundary(frames, cut) && |text| <= MAX_PAYLOAD_LEN && TextBytes(text)
    ensures NoEof(ReadAll(cut + EncodeFrame(ErrorFrame(text))).frames)
  {
    var e := EncodeFrame(ErrorFrame(text));
    var k := BoundaryPoint(frames, cut);
    hide *;
    if cut == Wire(frames[..k]) {
      ErrorFrameIsNoChunk(text);
      FramesThen(frames, k, e);
    } else {
      OneFileChunk(frames, k);
      OrphanIsNoEof(frames[k], text);
      Associate(Wire(frames[..k]), EncodeHeader(frames[k].header), e);
      FramesThen(frames, k, EncodeHeader(frames[k].header) + e);
    }
  }

  lemma OneFileChunk(frames: seq<Frame>, k: nat)
    requires FileChunks(frames) && k < |frames|
    ensures FileChunks([frames[k]])
  {
    hide Receiver.Chunk, Sendable;
    assert frames[k] in frames;
  }

  lemma BoundaryPoint(frames: seq<Frame>, cut: seq<Byte>) returns (k: nat)
    requires AtBoundary(frames, cut)
    ensures k <= |frames|
    ensures cut == Wire(frames[..k]) || (k < |frames| && cut == Wire(frames[..k]) + EncodeHeader(frames[k].header))
  {
    k :| k <= |frames| &&
      (cut == Wire(frames[..k]) || (k < |frames| && cut == Wire(frames[..k]) + EncodeHeader(frames[k].header)));
  }

  lemma FramesThen(frames: seq<Frame>, k: nat, rest: seq<Byte>)
    requires FileChunks(frames)
    requires k <= |frames|
    requires NoEof(ReadAll(rest).frames)
    ensures NoEof(ReadAll(Wire(frames[..k]) + rest).frames)
  {
    hide Wire, ReadAll, Receiver.Chunk, Sendable;
    assert forall f | f in frames[..k] :: f in frames;
    ReadAllWire(frames[..k], rest);
  }

  lemma OrphanIsNoEof(f: Frame, text: seq<Byte>)
    requires FileChunks([f])
    requires |text| <= MAX_PAYLOAD_LEN && TextBytes(text)
    ensures NoEof(ReadAll(EncodeHeader(f.header) + EncodeFrame(ErrorFrame(text))).frames)
  {
    assert f in [f];
    OrphanHeader(f.header, text);
    hide ReadAll, Receiver.Chunk, EncodeHeader, EncodeFrame;
    forall g | g in ReadAll(EncodeHeader(f.header) + EncodeFrame(ErrorFrame(text))).frames
      ensures Receiver.Chunk(g, REQUEST_ID) == Ok(false)
    {
      ChunkOfHeader(g, f, REQUEST_ID);
    }
  }

  lemma ErrorFrameIsNoChunk(text: seq<Byte>)
    requires |text| <= MAX_PAYLOAD_LEN
    ensures ReadAll(EncodeFrame(ErrorFrame(text))).frames == [ErrorFrame(text)]
    ensures NoEof([ErrorFrame(text)])
  {
    var f := ErrorFrame(text);
    ReadAllStep(f, []);
    assert EncodeFrame(f) + [] == EncodeFrame(f);
    ReadAllNothing();
    hide ReadAll, EncodeFrame;
    assert [f] + [] == [f];
  }

  /**
   No false success of a pull: when the daemon gives up, whatever write boundary the dropped buffer cut the
   stream at, and although the error response may then be misread as file data, the client does not complete.
   */
  lemma FailedPullNeverCompletes(fs: FS, umask: Mode, destination: Destination, c: Codec,
                                 sources: seq<Source>, fileReads: seq<seq<ReadBlock>>, sent: seq<Byte>, text: seq<Byte>)
    requires Lossless(c) && c.decode(text) == Some(ErrorResponse)
    requires |text| <= MAX_PAYLOAD_LEN && TextBytes(text)
    requires PullCutShort(c, sources, fileReads, sent)
    ensures PullClient(fs, umask, destination, c, ReadAll(sent + EncodeFrame(ErrorFrame(text)))).PullFailed?
  {
    var e := EncodeFrame(ErrorFrame(text));
    if sent == [] {
      assert sent + e == e;
      ErrorFrameIsNoChunk(text);
    } else {
      var cut :| AtBoundary(FileFrames(sources, fileReads).frames, cut) &&
        sent == EncodeFrame(MessageFrame(c, Metadata(sources))) + cut;
      CutPullNeverCompletes(fs, umask, destination, c, sources, fileReads, cut, text);
    }
  }

  lemma CutPullNeverCompletes(fs: FS, umask: Mode, destination: Destination, c: Codec,
                              sources: seq<Source>, fileReads: seq<seq<ReadBlock>>, cut: seq<Byte>, text: seq<Byte>)
    requires Fits(c, Metadata(sources)) && AtBoundary(FileFrames(sources, fileReads).frames, cut)
    requires |text| <= MAX_PAYLOAD_LEN && TextBytes(text)
    ensures PullClient(fs, umask, destination, c,
                       ReadAll(EncodeFrame(MessageFrame(c, Metadata(sources))) + cut + EncodeFrame(ErrorFrame(text)))).PullFailed?
  {
    StreamedFrames(REQUEST_ID, FileSizes(ForestManifest(sources).files), fileReads);
    var frames, meta, e := FileFrames(sources, fileReads).frames, MessageFrame(c, Metadata(sources)), EncodeFrame(ErrorFrame(text));
    assert frames == StreamFiles(REQUEST_ID, FileSizes(ForestManifest(sources).files), fileReads).frames;
    assert Sendable(meta);
    assert FileChunks(frames);
    hide *;
    CutThenErrorHasNoEof(frames, cut, text);
    Associate(EncodeFrame(meta), cut, e);
    ReadAllStep(meta, cut + e);
    DropFirst(ReadAll(EncodeFrame(meta) + cut + e), meta, ReadAll(cut + e));
    CutPullFails(fs, umask, destination, c, ReadAll(EncodeFrame(meta) + cut + e));
  }

  lemma DropFirst(whole: Incoming, first: Frame, rest: Incoming)
    requires whole == Incoming([first] + rest.frames, rest.error)
    ensures whole.frames != [] && From(whole, 1) == rest
  {
  }

  lemma CutPullFails(fs: FS, umask: Mode, destination: Destination, c: Codec, inc: Incoming)
    requires inc.frames != []
    requires NoEof(From(inc, 1).frames)
    ensures PullClient(fs, umask, destination, c, inc).PullFailed?
  {
    hide ReceiveBatch, Receiver.Chunk, LocalRoots, ResponseAt, FinishPull;
    var first := ResponseAt(c, inc, 0);
    if first.Ok? && first.value.PullBatchMetadata? {
      var roots := LocalRoots(fs, destination, first.value.roots);
      if roots.Ok? {
        NoEofNeverCompletes(fs, Client, umask, roots.value, first.value.entries, From(inc, 1));
      }
    }
  }
}
