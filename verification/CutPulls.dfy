/** A pull whose connection is lost: whatever the client has read by then, it reports no success. */
module CutPulls {
  import opened Base
  import opened Frames
  import opened Paths
  import opened Trees
  import opened FileSystem
  import opened Manifest
  import opened Overlay
  import opened Receiver
  import opened Roots
  import opened Sender
  import opened Forest
  import opened Transfer
  import opened Pull
  import opened PullTheorems

  // ---------------------------------------------------------------------
  // A daemon that succeeded
  // ---------------------------------------------------------------------

  /** A receiver completes only behind an EOF chunk. */
  lemma CompletesBehindEof(fs: FS, side: Side, umask: Mode, rootPaths: seq<Path>, entries: seq<TransferEntry>, inc: Incoming)
    ensures var r := ReceiveBatch(fs, side, umask, rootPaths, entries, inc, REQUEST_ID);
            r.Completed? ==> 0 < r.next <= |inc.frames| && Receiver.Chunk(inc.frames[r.next - 1], REQUEST_ID) == Ok(true)
  {
    hide Receiver.Chunk, ReceiveEntries;
    BatchStages(fs, side, umask, rootPaths, entries, inc, REQUEST_ID);
  }

  /** If only the last frame can be an EOF chunk, nothing is left for the completion message. */
  lemma EndsBeforeCompletion(fs: FS, umask: Mode, destination: Destination, c: Codec, inc: Incoming)
    requires inc.frames != []
    requires forall i | 1 <= i < |inc.frames| - 1 :: Receiver.Chunk(inc.frames[i], REQUEST_ID) != Ok(true)
    ensures PullClient(fs, umask, destination, c, inc).PullFailed?
  {
    hide ReceiveBatch, Receiver.Chunk, LocalRoots;
    var first := ResponseAt(c, inc, 0);
    if first.Ok? && first.value.PullBatchMetadata? {
      var roots := LocalRoots(fs, destination, first.value.roots);
      if roots.Ok? {
        var rest := From(inc, 1);
        CompletesBehindEof(fs, Client, umask, roots.value, first.value.entries, rest);
        var r := ReceiveBatch(fs, Client, umask, roots.value, first.value.entries, rest, REQUEST_ID);
        if r.Completed? {
          assert rest.frames[r.next - 1] == inc.frames[r.next];
          NothingToFinish(c, inc, r.fs, r.entries, r.bytes, first.value.totalBytes);
        }
      }
    }
  }

  lemma NothingToFinish(c: Codec, inc: Incoming, after: FS, entries: nat, bytes: nat, totalBytes: nat)
    ensures FinishPull(c, inc, after, |inc.frames|, entries, bytes, totalBytes).PullFailed?
  {
  }

  lemma NoFramesFail(fs: FS, umask: Mode, destination: Destination, c: Codec, inc: Incoming)
    requires inc.frames == []
    ensures PullClient(fs, umask, destination, c, inc).PullFailed?
  {
  }

  /** A successful daemon's stream, cut anywhere before its last byte, never makes the client report success. */
  lemma CutPullNeverReported(fs: FS, umask: Mode, destination: Destination, c: Codec, sources: seq<Source>,
                             fileReads: seq<seq<ReadBlock>>, n: nat)
    requires Fits(c, Metadata(sources)) && Fits(c, PullCompletion(sources))
    requires n < |Wire(PullFrames(c, sources, fileReads))|
    ensures PullClient(fs, umask, destination, c, ReadAll(Wire(PullFrames(c, sources, fileReads))[..n])).PullFailed?
  {
    hide *;
    var all := PullFrames(c, sources, fileReads);
    PullFramesShape(c, sources, fileReads);
    ReadAllCut(all, n);
    CutIsShorter(all, n);
    var inc := ReadAll(Wire(all)[..n]);
    if inc.frames == [] {
      NoFramesFail(fs, umask, destination, c, inc);
    } else {
      EndsBeforeCompletion(fs, umask, destination, c, inc);
    }
  }

  lemma CutIsShorter(frames: seq<Frame>, n: nat)
    requires n < |Wire(frames)|
    ensures WholeFrames(frames, n) < |frames|
  {
    WholeFramesFit(frames, n);
    assert frames[..|frames|] == frames;
  }

  lemma PullFramesShape(c: Codec, sources: seq<Source>, fileReads: seq<seq<ReadBlock>>)
    requires Fits(c, Metadata(sources)) && Fits(c, PullCompletion(sources))
    ensures var all := PullFrames(c, sources, fileReads);
            (forall f | f in all :: Sendable(f)) &&
            forall i | 1 <= i < |all| - 2 :: Receiver.Chunk(all[i], REQUEST_ID) != Ok(true)
  {
    hide Metadata, PullCompletion, Sendable, Receiver.Chunk, StreamFrame, StreamFiles;
    PullFramesAre(c, sources, fileReads);
    StreamedFrames(REQUEST_ID, FileSizes(ForestManifest(sources).files), fileReads);
    var all, files := PullFrames(c, sources, fileReads), FileFrames(sources, fileReads).frames;
    forall i | 1 <= i < |all| - 2
      ensures Receiver.Chunk(all[i], REQUEST_ID) != Ok(true)
    {
      assert all[i] == files[i - 1] && files[i - 1] in files;
    }
  }

  /** The client reports success exactly when the daemon's whole stream has arrived and nothing is in the way. */
  lemma PullReportedIff(fs: FS, umask: Mode, destination: Destination, rootPaths: seq<Path>, c: Codec,
                        sources: seq<Source>, fileReads: seq<seq<ReadBlock>>, n: nat)
    requires Lossless(c) && Fits(c, Metadata(sources)) && Fits(c, PullCompletion(sources))
    requires ValidSources(sources) && Unchanged(sources, fileReads)
    requires WellFormed(fs) && LocalRoots(fs, destination, RootsOf(sources)) == Ok(rootPaths)
    requires n <= |Wire(PullFrames(c, sources, fileReads))|
    ensures |rootPaths| == |sources|
    ensures var wire := Wire(PullFrames(c, sources, fileReads));
            PullClient(fs, umask, destination, c, ReadAll(wire[..n])).PullDone? <==>
            n == |wire| && ClearWay(fs, rootPaths, sources)
  {
    hide *;
    var wire := Wire(PullFrames(c, sources, fileReads));
    PullRoundTrip(fs, umask, destination, rootPaths, c, sources, fileReads, []);
    assert wire[..|wire|] == wire == wire + [];
    if n < |wire| {
      CutPullNeverReported(fs, umask, destination, c, sources, fileReads, n);
    }
  }

  // ---------------------------------------------------------------------
  // A daemon that gave up
  // ---------------------------------------------------------------------

  /** What can be read from a beginning can be read from the whole. */
  lemma ReadFrameOfMore(input: seq<Byte>, n: nat)
    requires n <= |input| && ReadFrame(input[..n]).Ok?
    ensures ReadFrame(input).Ok?
  {
    hide DecodeHeader;
    assert input[..n][..HEADER_LEN] == input[..HEADER_LEN];
  }

  /** A header without its payload, and then some of an error response, yields at most that one frame. */
  lemma OrphanHeaderCut(h: FrameHeader, text: seq<Byte>, n: nat)
    requires |text| <= MAX_PAYLOAD_LEN && TextBytes(text)
    requires h.version == PROTOCOL_VERSION && 0 < h.payloadLen <= MAX_PAYLOAD_LEN
    requires n <= |EncodeHeader(h) + EncodeFrame(ErrorFrame(text))|
    ensures forall f | f in ReadAll((EncodeHeader(h) + EncodeFrame(ErrorFrame(text)))[..n]).frames :: f.header == h
  {
    hide *;
    var e, bytes := EncodeFrame(ErrorFrame(text)), EncodeHeader(h);
    HeaderIsShort(h);
    if n < HEADER_LEN {
      TooShort((bytes + e)[..n]);
    } else {
      var got := e[..n - HEADER_LEN];
      assert (bytes + e)[..n] == bytes + got;
      ReadBehindHeader(h, got);
      if h.payloadLen <= |got| {
        assert got[h.payloadLen..] == e[h.payloadLen..][..|got| - h.payloadLen];
        NothingInsideCutError(text, h.payloadLen, |got| - h.payloadLen);
      }
    }
  }

  lemma HeaderIsShort(h: FrameHeader)
    ensures |EncodeHeader(h)| == HEADER_LEN
  {
  }

  lemma TooShort(input: seq<Byte>)
    requires |input| < HEADER_LEN
    ensures ReadAll(input).frames == []
  {
  }

  lemma FrameBehindHeader(h: FrameHeader, rest: seq<Byte>)
    requires h.version == PROTOCOL_VERSION && h.payloadLen <= MAX_PAYLOAD_LEN
    ensures ReadFrame(EncodeHeader(h) + rest) ==
            if |rest| < h.payloadLen then Err(UnexpectedEof)
            else Ok((Frame(h, rest[..h.payloadLen]), rest[h.payloadLen..]))
  {
    HeaderRoundTrip(h);
    HeaderIsShort(h);
    hide EncodeHeader, DecodeHeader;
    var input, end := EncodeHeader(h) + rest, HEADER_LEN + h.payloadLen;
    assert input[..HEADER_LEN] == EncodeHeader(h);
    if |rest| >= h.payloadLen {
      assert input[HEADER_LEN..end] == rest[..h.payloadLen] && input[end..] == rest[h.payloadLen..];
    }
  }

  lemma ReadOn(input: seq<Byte>)
    ensures ReadAll(input).frames ==
            match ReadFrame(input)
            case Err(_) => []
            case Ok((f, rest)) => [f] + ReadAll(rest).frames
  {
    hide ReadFrame;
  }

  /** What is read of a header and some bytes behind it. */
  lemma ReadBehindHeader(h: FrameHeader, rest: seq<Byte>)
    requires h.version == PROTOCOL_VERSION && h.payloadLen <= MAX_PAYLOAD_LEN
    ensures ReadAll(EncodeHeader(h) + rest).frames ==
            if |rest| < h.payloadLen then []
            else [Frame(h, rest[..h.payloadLen])] + ReadAll(rest[h.payloadLen..]).frames
  {
    hide *;
    FrameBehindHeader(h, rest);
    ReadOn(EncodeHeader(h) + rest);
  }

  lemma NothingInsideCutError(text: seq<Byte>, k: nat, n: nat)
    requires |text| <= MAX_PAYLOAD_LEN && TextBytes(text)
    requires 0 < k <= |EncodeFrame(ErrorFrame(text))| && n <= |EncodeFrame(ErrorFrame(text))[k..]|
    ensures ReadAll(EncodeFrame(ErrorFrame(text))[k..][..n]).frames == []
  {
    hide ReadFrame, EncodeFrame, TextBytes;
    NothingInsideError(text, k);
    var rest := EncodeFrame(ErrorFrame(text))[k..];
    if ReadFrame(rest[..n]).Ok? {
      ReadFrameOfMore(rest, n);
    }
  }

  lemma OrphanCutIsNoEof(f: Frame, text: seq<Byte>, n: nat)
    requires FileChunks([f]) && |text| <= MAX_PAYLOAD_LEN && TextBytes(text)
    requires n <= |EncodeHeader(f.header) + EncodeFrame(ErrorFrame(text))|
    ensures NoEof(ReadAll((EncodeHeader(f.header) + EncodeFrame(ErrorFrame(text)))[..n]).frames)
  {
    assert f in [f];
    OrphanHeaderCut(f.header, text, n);
    hide ReadAll, Receiver.Chunk, EncodeHeader, EncodeFrame;
    forall g | g in ReadAll((EncodeHeader(f.header) + EncodeFrame(ErrorFrame(text)))[..n]).frames
      ensures Receiver.Chunk(g, REQUEST_ID) == Ok(false)
    {
      ChunkOfHeader(g, f, REQUEST_ID);
    }
  }

  /** Frames of which only the first may be anything, cut anywhere, and what may follow them. */
  ghost predicate NoEofBehindFirst(frames: seq<Frame>) {
    frames == [] || NoEof(frames[1..])
  }

  lemma CutHasNoEof(frames: seq<Frame>, n: nat)
    requires (forall f | f in frames :: Sendable(f)) && NoEofBehindFirst(frames) && n <= |Wire(frames)|
    ensures NoEofBehindFirst(ReadAll(Wire(frames)[..n]).frames)
  {
    hide Sendable, Wire, ReadAll, Receiver.Chunk;
    ReadAllCut(frames, n);
    var k := WholeFrames(frames, n);
    if k > 0 {
      assert forall f | f in frames[..k][1..] :: f in frames[1..];
    }
  }

  lemma ThenHasNoEof(frames: seq<Frame>, tail: seq<Byte>)
    requires frames != [] && (forall f | f in frames :: Sendable(f)) && NoEofBehindFirst(frames) && NoEof(ReadAll(tail).frames)
    ensures NoEofBehindFirst(ReadAll(Wire(frames) + tail).frames)
  {
    hide Sendable, Wire, ReadAll, Receiver.Chunk;
    ReadAllWire(frames, tail);
    assert (frames + ReadAll(tail).frames)[1..] == frames[1..] + ReadAll(tail).frames;
  }

  /** Any beginning of first frame, chunks up to a write boundary, and error response. */
  lemma CutBoundaryHasNoEof(first: Frame, frames: seq<Frame>, cut: seq<Byte>, text: seq<Byte>, n: nat)
    requires Sendable(first) && FileChunks(frames) && AtBoundary(frames, cut)
    requires |text| <= MAX_PAYLOAD_LEN && TextBytes(text)
    requires n <= |EncodeFrame(first) + cut + EncodeFrame(ErrorFrame(text))|
    ensures NoEofBehindFirst(ReadAll((EncodeFrame(first) + cut + EncodeFrame(ErrorFrame(text)))[..n]).frames)
  {
    hide *;
    var k := BoundaryPoint(frames, cut);
    var e := EncodeFrame(ErrorFrame(text));
    var whole := EncodeFrame(first) + cut + e;
    var before := [first] + frames[..k];
    ChunksBehind(first, frames, k, text);
    WireAppend([first], frames[..k]);
    WireOne(first);
    if cut == Wire(frames[..k]) {
      WireAppendOne(before, ErrorFrame(text));
      CutHasNoEof(before + [ErrorFrame(text)], n);
    } else {
      var orphan := EncodeHeader(frames[k].header) + e;
      Associate(EncodeFrame(first), Wire(frames[..k]), EncodeHeader(frames[k].header));
      Associate(Wire(before), EncodeHeader(frames[k].header), e);
      assert whole == Wire(before) + orphan;
      var len := |Wire(before)|;
      if n <= len {
        assert whole[..n] == Wire(before)[..n];
        CutHasNoEof(before, n);
      } else {
        assert whole[..n] == Wire(before) + orphan[..n - len];
        OneFileChunk(frames, k);
        OrphanCutIsNoEof(frames[k], text, n - len);
        ThenHasNoEof(before, orphan[..n - len]);
      }
    }
  }

  lemma ChunksBehind(first: Frame, frames: seq<Frame>, k: nat, text: seq<Byte>)
    requires Sendable(first) && FileChunks(frames) && k <= |frames| && |text| <= MAX_PAYLOAD_LEN
    ensures var before := [first] + frames[..k];
            (forall f | f in before :: Sendable(f)) && NoEofBehindFirst(before) &&
            (forall f | f in before + [ErrorFrame(text)] :: Sendable(f)) && NoEofBehindFirst(before + [ErrorFrame(text)])
  {
    ErrorFrameIsNoChunk(text);
    hide Receiver.Chunk, ReadAll;
    assert Sendable(ErrorFrame(text));
    hide Sendable;
    var before := [first] + frames[..k];
    assert forall f | f in frames[..k] :: f in frames;
    assert before[1..] == frames[..k];
    assert (before + [ErrorFrame(text)])[1..] == frames[..k] + [ErrorFrame(text)];
    assert ErrorFrame(text) in [ErrorFrame(text)];
  }

  lemma NoEofFails(fs: FS, umask: Mode, destination: Destination, c: Codec, inc: Incoming)
    requires NoEofBehindFirst(inc.frames)
    ensures PullClient(fs, umask, destination, c, inc).PullFailed?
  {
    hide PullClient, ReceiveBatch, Receiver.Chunk;
    if inc.frames == [] {
      NoFramesFail(fs, umask, destination, c, inc);
    } else {
      CutPullFails(fs, umask, destination, c, inc);
    }
  }

  /**
   Nor does what a daemon that gave up has sent: whichever write boundary its dropped buffer cut the files at, and
   wherever the connection is then lost, before, within or after the error response.
   */
  lemma FailedPullNeverReported(fs: FS, umask: Mode, destination: Destination, c: Codec, sources: seq<Source>,
                                fileReads: seq<seq<ReadBlock>>, sent: seq<Byte>, text: seq<Byte>, n: nat)
    requires Lossless(c) && c.decode(text) == Some(ErrorResponse)
    requires |text| <= MAX_PAYLOAD_LEN && TextBytes(text)
    requires PullCutShort(c, sources, fileReads, sent) && n <= |sent + EncodeFrame(ErrorFrame(text))|
    ensures PullClient(fs, umask, destination, c, ReadAll((sent + EncodeFrame(ErrorFrame(text)))[..n])).PullFailed?
  {
    hide *;
    var e := EncodeFrame(ErrorFrame(text));
    if sent == [] {
      assert sent + e == e;
      if n == |e| {
        FailedPullNeverCompletes(fs, umask, destination, c, sources, fileReads, sent, text);
        assert e[..n] == e;
      } else {
        CutErrorIsNothing(text, n);
        NoFramesFail(fs, umask, destination, c, ReadAll(e[..n]));
      }
    } else {
      var cut := CutOfPull(c, sources, fileReads, sent);
      PullChunks(c, sources, fileReads);
      CutBoundaryHasNoEof(MessageFrame(c, Metadata(sources)), FileFrames(sources, fileReads).frames, cut, text, n);
      NoEofFails(fs, umask, destination, c, ReadAll((sent + e)[..n]));
    }
  }

  lemma CutErrorIsNothing(text: seq<Byte>, n: nat)
    requires |text| <= MAX_PAYLOAD_LEN && n < |EncodeFrame(ErrorFrame(text))|
    ensures ReadAll(EncodeFrame(ErrorFrame(text))[..n]).frames == []
  {
    hide EncodeFrame;
    ReadAllCutFirst(ErrorFrame(text), EncodeFrame(ErrorFrame(text))[..n]);
  }

  lemma CutOfPull(c: Codec, sources: seq<Source>, fileReads: seq<seq<ReadBlock>>, sent: seq<Byte>) returns (cut: seq<Byte>)
    requires PullCutShort(c, sources, fileReads, sent) && sent != []
    ensures Fits(c, Metadata(sources)) && AtBoundary(FileFrames(sources, fileReads).frames, cut)
    ensures sent == EncodeFrame(MessageFrame(c, Metadata(sources))) + cut
  {
    hide AtBoundary, FileFrames, EncodeFrame;
    cut :| AtBoundary(FileFrames(sources, fileReads).frames, cut) &&
      sent == EncodeFrame(MessageFrame(c, Metadata(sources))) + cut;
  }

  lemma PullChunks(c: Codec, sources: seq<Source>, fileReads: seq<seq<ReadBlock>>)
    requires Fits(c, Metadata(sources))
    ensures Sendable(MessageFrame(c, Metadata(sources))) && FileChunks(FileFrames(sources, fileReads).frames)
  {
    hide Metadata, Receiver.Chunk, StreamFiles;
    StreamedFrames(REQUEST_ID, FileSizes(ForestManifest(sources).files), fileReads);
    assert Sendable(MessageFrame(c, Metadata(sources)));
    hide Sendable;
  }
}
