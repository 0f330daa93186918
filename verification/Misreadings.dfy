/**
 What a receiver makes of a transfer that goes wrong at the sender, whose buffer
 is dropped: when bytes of one file end up in another, and when an error response
 is read as file data.
 */
module Misreadings {
  import opened Base
  import opened Frames
  import opened Manifest
  import opened Receiver
  import opened Slices
  import opened Sender
  import opened Filling
  import opened Delivery
  import opened Transfer
  import opened PullTheorems
  import opened Push

  // ---------------------------------------------------------------------
  // Blocks that arrive
  // ---------------------------------------------------------------------

  /** The bytes each file gets, up to and including the file at which receiving stops. */
  function WrittenFiles(inc: Incoming, rid: U32, at: nat, sizes: seq<nat>): seq<seq<Byte>>
    requires at <= |inc.frames|
    decreases |sizes|
  {
    if sizes == [] then []
    else
      ReceiveDataBounds(inc, rid, at, sizes[0]);
      match ReceiveData(inc, rid, at, sizes[0])
      case Broken(data, _) => [data]
      case Received(data, next) => [data] + WrittenFiles(inc, rid, next, sizes[1..])
  }

  /** When nothing stops the receiver these are the contents it reads. */
  lemma {:induction false} WrittenIsRead(inc: Incoming, rid: U32, at: nat, sizes: seq<nat>)
    requires at <= |inc.frames| && ReceiveContents(inc, rid, at, sizes).AllRead?
    ensures WrittenFiles(inc, rid, at, sizes) == ReceiveContents(inc, rid, at, sizes).contents
    decreases |sizes|
  {
    hide ReceiveData;
    if sizes != [] {
      ReceiveDataBounds(inc, rid, at, sizes[0]);
      WrittenIsRead(inc, rid, ReceiveData(inc, rid, at, sizes[0]).next, sizes[1..]);
    }
  }

  /** No more content comes from `at` on: the frames end there, or the next one is no chunk. */
  ghost predicate Stops(inc: Incoming, rid: U32, at: nat) {
    at <= |inc.frames| && (at < |inc.frames| ==> Receiver.Chunk(inc.frames[at], rid) != Ok(false))
  }

  /** A block found in the stream is the content a file may take. */
  lemma BlockIsContent(rid: U32, blocks: seq<ReadBlock>, inc: Incoming, at: nat, size: nat)
    requires blocks != [] && Occurs(inc.frames, at, BlockFrames(rid, blocks)) && at < |inc.frames|
    ensures ContentAt(inc, rid, at, size) == if |blocks[0]| > size then Err(Overran) else Ok(blocks[0])
    ensures Occurs(inc.frames, at + 1, BlockFrames(rid, blocks[1..]))
  {
    hide StreamFlags, Receiver.Chunk, StreamFrame;
    BlockThere(rid, blocks, inc.frames, at, 0);
    assert BlockFrames(rid, blocks) == [BlockFrames(rid, blocks)[0]] + BlockFrames(rid, blocks[1..]);
    OccursSplit(inc.frames, at, [BlockFrames(rid, blocks)[0]], BlockFrames(rid, blocks[1..]));
  }

  lemma NoContent(inc: Incoming, rid: U32, at: nat, size: nat)
    requires Stops(inc, rid, at)
    ensures ContentAt(inc, rid, at, size).Err?
  {
  }

  /** Reading one file from the last blocks of a stream. */
  lemma {:induction false} DataFromBlocks(rid: U32, blocks: seq<ReadBlock>, inc: Incoming, at: nat, size: nat)
    requires Occurs(inc.frames, at, BlockFrames(rid, blocks)) && Stops(inc, rid, at + |blocks|)
    ensures var d, p := ReceiveData(inc, rid, at, size), Fit(blocks, size);
            d.data == Joined(blocks[..p]) && (d.Received? <==> |d.data| == size) && (d.Received? ==> d.next == at + p)
    decreases |blocks|
  {
    hide BlockFrames, ContentAt, Stops;
    if size == 0 {
      assert blocks[..0] == [];
    } else if blocks == [] {
      NoContent(inc, rid, at, size);
    } else {
      StopsWithin(inc, rid, at, |blocks|);
      BlockIsContent(rid, blocks, inc, at, size);
      if |blocks[0]| <= size {
        DataFromBlocks(rid, blocks[1..], inc, at + 1, size - |blocks[0]|);
        var p := Fit(blocks[1..], size - |blocks[0]|);
        assert blocks[..1 + p][1..] == blocks[1..][..p] && blocks[..1 + p][0] == blocks[0];
      }
    }
  }

  lemma StopsWithin(inc: Incoming, rid: U32, at: nat, n: nat)
    requires Stops(inc, rid, at + n) && n > 0
    ensures at < |inc.frames|
  {
  }

  lemma NothingWritten(inc: Incoming, rid: U32, at: nat)
    requires at <= |inc.frames|
    ensures WrittenFiles(inc, rid, at, []) == []
  {
  }

  lemma FirstWritten(inc: Incoming, rid: U32, at: nat, sizes: seq<nat>)
    requires at <= |inc.frames| && sizes != []
    ensures var d := ReceiveData(inc, rid, at, sizes[0]);
            match d
            case Broken(data, _) => WrittenFiles(inc, rid, at, sizes) == [data] + []
            case Received(data, next) =>
              next <= |inc.frames| && WrittenFiles(inc, rid, at, sizes) == [data] + WrittenFiles(inc, rid, next, sizes[1..])
  {
    ReceiveDataBounds(inc, rid, at, sizes[0]);
    hide ReceiveData;
  }

  lemma RestOccurs(rid: U32, blocks: seq<ReadBlock>, frames: seq<Frame>, at: nat, p: nat)
    requires p <= |blocks| && Occurs(frames, at, BlockFrames(rid, blocks))
    ensures Occurs(frames, at + p, BlockFrames(rid, blocks[p..]))
  {
    hide StreamFrame;
    var all, rest := BlockFrames(rid, blocks), BlockFrames(rid, blocks[p..]);
    forall k | 0 <= k < |rest|
      ensures frames[at + p + k] == rest[k]
    {
      assert frames[at + (p + k)] == all[p + k];
    }
  }

  /** Blocks after which no more content comes fill the files by their lengths. */
  lemma {:induction false} WrittenIsFilled(rid: U32, blocks: seq<ReadBlock>, inc: Incoming, at: nat, sizes: seq<nat>)
    requires Occurs(inc.frames, at, BlockFrames(rid, blocks)) && Stops(inc, rid, at + |blocks|)
    ensures at <= |inc.frames| && WrittenFiles(inc, rid, at, sizes) == Filled(sizes, blocks)
    decreases |sizes|
  {
    hide *;
    OccursFits(inc.frames, at, BlockFrames(rid, blocks));
    if sizes == [] {
      NothingWritten(inc, rid, at);
      NothingFilled(blocks);
    } else {
      DataFromBlocks(rid, blocks, inc, at, sizes[0]);
      FirstWritten(inc, rid, at, sizes);
      FilledUnfolds(sizes, blocks);
      var d, p := ReceiveData(inc, rid, at, sizes[0]), Fit(blocks, sizes[0]);
      if d.Received? {
        RestOccurs(rid, blocks, inc.frames, at, p);
        WrittenIsFilled(rid, blocks[p..], inc, at + p, sizes[1..]);
      }
    }
  }

  // ---------------------------------------------------------------------
  // Error responses
  // ---------------------------------------------------------------------

  /** Every cut that a dropped buffer can leave is one of these. */
  lemma CutsAreThese(frames: seq<Frame>, bytes: seq<Byte>)
    ensures AtBoundary(frames, bytes) <==>
            exists k: nat, headerOut: bool | k <= |frames| && (headerOut ==> k < |frames|) :: bytes == CutAt(frames, k, headerOut)
  {
    hide Wire, EncodeHeader;
    if AtBoundary(frames, bytes) {
      var k := BoundaryPoint(frames, bytes);
      if bytes == Wire(frames[..k]) {
        assert bytes == CutAt(frames, k, false);
      } else {
        assert bytes == CutAt(frames, k, true);
      }
    }
    if k: nat, headerOut: bool :| k <= |frames| && (headerOut ==> k < |frames|) && bytes == CutAt(frames, k, headerOut) {
      assert headerOut ==> bytes == Wire(frames[..k]) + EncodeHeader(frames[k].header);
      assert !headerOut ==> bytes == Wire(frames[..k]);
    }
  }

  /** What is read behind a cut that an error response follows: the whole frames, and then at most one more. */
  lemma ReadAfterCut(frames: seq<Frame>, k: nat, headerOut: bool, text: seq<Byte>)
    requires FileChunks(frames) && |text| <= MAX_PAYLOAD_LEN && TextBytes(text)
    requires k <= |frames| && (headerOut ==> k < |frames|)
    ensures var e := EncodeFrame(ErrorFrame(text));
            ReadAll(CutAt(frames, k, headerOut) + e).frames == frames[..k] +
              if !headerOut then [ErrorFrame(text)]
              else if |frames[k].payload| <= |e| then [Frame(frames[k].header, e[..|frames[k].payload|])]
              else []
  {
    hide *;
    var e := EncodeFrame(ErrorFrame(text));
    PrefixSendable(frames, k);
    if headerOut {
      CutUnfolds(frames, k, true);
      OneFileChunk(frames, k);
      OrphanRead(frames[k], text);
      Associate(Wire(frames[..k]), EncodeHeader(frames[k].header), e);
      ReadAllWire(frames[..k], EncodeHeader(frames[k].header) + e);
    } else {
      CutUnfolds(frames, k, false);
      ErrorFrameIsNoChunk(text);
      ReadAllWire(frames[..k], e);
    }
  }

  lemma CutUnfolds(frames: seq<Frame>, k: nat, headerOut: bool)
    requires k <= |frames| && (headerOut ==> k < |frames|)
    ensures headerOut ==> CutAt(frames, k, headerOut) == Wire(frames[..k]) + EncodeHeader(frames[k].header)
    ensures !headerOut ==> CutAt(frames, k, headerOut) == Wire(frames[..k])
  {
    hide Wire, EncodeHeader;
  }

  lemma PrefixSendable(frames: seq<Frame>, k: nat)
    requires FileChunks(frames) && k <= |frames|
    ensures forall f | f in frames[..k] :: Sendable(f)
  {
    hide Receiver.Chunk, Sendable;
    assert forall f | f in frames[..k] :: f in frames;
  }

  /** A header whose payload was lost takes its payload from the error response, if that is long enough. */
  lemma OrphanRead(f: Frame, text: seq<Byte>)
    requires FileChunks([f]) && |text| <= MAX_PAYLOAD_LEN && TextBytes(text)
    ensures var e := EncodeFrame(ErrorFrame(text));
            ReadAll(EncodeHeader(f.header) + e).frames ==
            if |f.payload| <= |e| then [Frame(f.header, e[..|f.payload|])] else []
  {
    hide EncodeHeader, DecodeHeader, EncodeFrame, Receiver.Chunk;
    assert f in [f];
    var e := EncodeFrame(ErrorFrame(text));
    var input := EncodeHeader(f.header) + e;
    assert input[..HEADER_LEN] == EncodeHeader(f.header);
    HeaderRoundTrip(f.header);
    if |f.payload| <= |e| {
      assert input[HEADER_LEN + |f.payload|..] == e[|f.payload|..];
      assert input[HEADER_LEN..HEADER_LEN + |f.payload|] == e[..|f.payload|];
      NothingInsideError(text, |f.payload|);
    }
  }

  /**
   The receiver takes bytes of the error response for file data exactly when the stream was cut between a chunk's
   header and its payload and the error response is at least as long as the payload that was lost.
   */
  lemma ErrorReadAsDataIff(frames: seq<Frame>, k: nat, headerOut: bool, text: seq<Byte>)
    requires FileChunks(frames) && |text| <= MAX_PAYLOAD_LEN && TextBytes(text)
    requires k <= |frames| && (headerOut ==> k < |frames|)
    ensures var e := EncodeFrame(ErrorFrame(text));
            var got := ReadAll(CutAt(frames, k, headerOut) + e).frames;
            |got| >= k && got[..k] == frames[..k] &&
            ((exists f | f in got[k..] :: Receiver.Chunk(f, REQUEST_ID) == Ok(false)) <==>
               headerOut && |frames[k].payload| <= |e|)
  {
    hide ReadAll, EncodeFrame, CutAt, Receiver.Chunk, Sendable;
    ReadAfterCut(frames, k, headerOut, text);
    ErrorFrameIsNoChunk(text);
    ErrorIsNoFileChunk(text);
    var e := EncodeFrame(ErrorFrame(text));
    var got := ReadAll(CutAt(frames, k, headerOut) + e).frames;
    assert got[..k] == frames[..k];
    if headerOut && |frames[k].payload| <= |e| {
      var phantom := Frame(frames[k].header, e[..|frames[k].payload|]);
      assert got[k..] == [phantom];
      assert frames[k] in frames;
      ChunkOfHeader(phantom, frames[k], REQUEST_ID);
      assert phantom in got[k..];
    } else {
      assert got[k..] == if headerOut then [] else [ErrorFrame(text)];
    }
  }

  lemma ErrorIsNoFileChunk(text: seq<Byte>)
    requires |text| <= MAX_PAYLOAD_LEN
    ensures Receiver.Chunk(ErrorFrame(text), REQUEST_ID) != Ok(false)
  {
  }

  // ---------------------------------------------------------------------
  // A dropped buffer
  // ---------------------------------------------------------------------

  /** How far a run of blocks gets before the buffer is dropped. */
  function Reached(blocks: seq<ReadBlock>): (o: Outgoing)
    ensures o.k <= |blocks| && (o.headerOut ==> o.k < |blocks|)
    ensures blocks != [] ==> o.k < |blocks|
  {
    LengthsAt(blocks);
    OutgoingOf(Lengths(blocks))
  }

  lemma {:induction false} BlocksOnWire(rid: U32, sizes: seq<nat>, fileReads: seq<seq<ReadBlock>>)
    ensures StreamFiles(rid, sizes, fileReads).frames == BlockFrames(rid, SentBlocks(sizes, fileReads))
    decreases |sizes|
  {
    hide Joined;
    if sizes != [] && fileReads != [] && |Joined(fileReads[0])| == sizes[0] {
      BlocksOnWire(rid, sizes[1..], fileReads[1..]);
      BlockFramesAppend(rid, fileReads[0], SentBlocks(sizes[1..], fileReads[1..]));
    }
  }

  lemma BlockFramesAppend(rid: U32, a: seq<ReadBlock>, b: seq<ReadBlock>)
    ensures BlockFrames(rid, a + b) == BlockFrames(rid, a) + BlockFrames(rid, b)
  {
    hide StreamFrame;
  }

  lemma BlockFramesPrefix(rid: U32, blocks: seq<ReadBlock>, k: nat)
    requires k <= |blocks|
    ensures BlockFrames(rid, blocks)[..k] == BlockFrames(rid, blocks[..k])
  {
    hide StreamFrame;
  }

  lemma PassedOnIsCut(rid: U32, blocks: seq<ReadBlock>)
    ensures PassedOn(BlockFrames(rid, blocks)) == CutAt(BlockFrames(rid, blocks), Reached(blocks).k, Reached(blocks).headerOut)
  {
    hide CutAt, StreamFlags, OutgoingOf;
    LengthsAt(blocks);
    var frames := BlockFrames(rid, blocks);
    assert PayloadLengths(frames) == Lengths(blocks);
  }

  lemma AllChunks(blocks: seq<ReadBlock>)
    ensures FileChunks(BlockFrames(REQUEST_ID, blocks))
  {
    hide Sendable, Receiver.Chunk, StreamFrame;
    forall f | f in BlockFrames(REQUEST_ID, blocks)
      ensures Sendable(f) && Receiver.Chunk(f, REQUEST_ID) == Ok(false) && |f.payload| > 0
    {
      var i :| 0 <= i < |blocks| && BlockFrames(REQUEST_ID, blocks)[i] == f;
      OneChunk(blocks[i]);
    }
  }

  lemma OneChunk(block: ReadBlock)
    ensures var f := StreamFrame(REQUEST_ID, StreamChannel.File, false, block);
            Sendable(f) && Receiver.Chunk(f, REQUEST_ID) == Ok(false) && f.payload == block
  {
    hide StreamFlags, Receiver.Chunk;
    BlockIsChunk(REQUEST_ID, block);
  }

  // ---------------------------------------------------------------------
  // A push that breaks off
  // ---------------------------------------------------------------------

  /** What a daemon reads of a dropped stream: the blocks that are out with their headers. */
  lemma DroppedStreamArrives(blocks: seq<ReadBlock>)
    ensures ReadAll(PassedOn(BlockFrames(REQUEST_ID, blocks))).frames == BlockFrames(REQUEST_ID, blocks[..Reached(blocks).k])
  {
    hide *;
    var frames, k := BlockFrames(REQUEST_ID, blocks), Reached(blocks).k;
    AllChunks(blocks);
    PassedOnIsCut(REQUEST_ID, blocks);
    CutUnfolds(frames, k, Reached(blocks).headerOut);
    PrefixSendable(frames, k);
    BlockFramesPrefix(REQUEST_ID, blocks, k);
    ReadAllNothing();
    if Reached(blocks).headerOut {
      OneFileChunk(frames, k);
      HeaderAlone(frames[k]);
      ReadAllWire(frames[..k], EncodeHeader(frames[k].header));
    } else {
      ReadAllWire(frames[..k], []);
      assert Wire(frames[..k]) + [] == Wire(frames[..k]);
    }
    assert frames[..k] + [] == frames[..k];
  }

  lemma HeaderAlone(f: Frame)
    requires FileChunks([f])
    ensures ReadAll(EncodeHeader(f.header)).frames == []
  {
    assert f in [f];
    hide EncodeHeader, Receiver.Chunk;
    assert EncodeFrame(f)[..HEADER_LEN] == EncodeHeader(f.header);
    ReadAllCutFirst(f, EncodeHeader(f.header));
  }

  /**
   A push that breaks off at file `j`: the daemon's files are filled with the blocks that had left the client's buffer,
   so a later file gets bytes, which are file `j`'s, exactly when those blocks spill over.
   */
  lemma PushSpillsIff(m: BatchManifest, fileReads: seq<seq<ReadBlock>>, j: nat)
    requires FailsAt(FileSizes(m.files), fileReads, j)
    ensures var sizes := FileSizes(m.files);
            var blocks := SentBlocks(sizes, fileReads);
            var written := WrittenFiles(ReadAll(StreamedBytes(m, fileReads)), REQUEST_ID, 0, sizes);
            written == Filled(sizes, blocks[..Reached(blocks).k]) && HoldOwn(fileReads, j, written) &&
            (WrittenBeyond(written, j) <==> SpillsOver(sizes, fileReads, j, Reached(blocks).k))
  {
    hide *;
    var sizes := FileSizes(m.files);
    var blocks := SentBlocks(sizes, fileReads);
    var k := Reached(blocks).k;
    BreaksOffIff(REQUEST_ID, sizes, fileReads);
    BlocksOnWire(REQUEST_ID, sizes, fileReads);
    BrokenOffBytes(m, fileReads);
    DroppedStreamArrives(blocks);
    AllOccurs(REQUEST_ID, blocks[..k], ReadAll(StreamedBytes(m, fileReads)));
    WrittenIsFilled(REQUEST_ID, blocks[..k], ReadAll(StreamedBytes(m, fileReads)), 0, sizes);
    SurplusLandsElsewhereIff(sizes, fileReads, j, k);
  }

  lemma BrokenOffBytes(m: BatchManifest, fileReads: seq<seq<ReadBlock>>)
    requires StreamFiles(REQUEST_ID, FileSizes(m.files), fileReads).result.Err?
    ensures StreamedBytes(m, fileReads) == PassedOn(StreamFiles(REQUEST_ID, FileSizes(m.files), fileReads).frames)
  {
  }

  lemma AllOccurs(rid: U32, blocks: seq<ReadBlock>, inc: Incoming)
    requires inc.frames == BlockFrames(rid, blocks)
    ensures Occurs(inc.frames, 0, BlockFrames(rid, blocks)) && Stops(inc, rid, 0 + |blocks|)
  {
  }

  // ---------------------------------------------------------------------
  // A pull that breaks off
  // ---------------------------------------------------------------------

  /** The error response takes the place of a block whose header is out and whose bytes were dropped. */
  predicate ReadAsBlock(blocks: seq<ReadBlock>, text: seq<Byte>)
    requires |text| <= MAX_PAYLOAD_LEN
  {
    var o := Reached(blocks);
    o.headerOut && |blocks[o.k]| <= |EncodeFrame(ErrorFrame(text))|
  }

  /** The block that is read instead of the one dropped. */
  function ErrorBlock(blocks: seq<ReadBlock>, text: seq<Byte>): ReadBlock
    requires |text| <= MAX_PAYLOAD_LEN && ReadAsBlock(blocks, text)
  {
    EncodeFrame(ErrorFrame(text))[..|blocks[Reached(blocks).k]|]
  }

  /** The blocks a client reads of a dropped stream that an error response follows. */
  function BlocksRead(blocks: seq<ReadBlock>, text: seq<Byte>): (read: seq<ReadBlock>)
    requires |text| <= MAX_PAYLOAD_LEN
    ensures |read| == Reached(blocks).k + if ReadAsBlock(blocks, text) then 1 else 0
  {
    blocks[..Reached(blocks).k] + if ReadAsBlock(blocks, text) then [ErrorBlock(blocks, text)] else []
  }

  lemma DroppedPullArrives(blocks: seq<ReadBlock>, text: seq<Byte>)
    requires |text| <= MAX_PAYLOAD_LEN && TextBytes(text)
    ensures var inc := ReadAll(PassedOn(BlockFrames(REQUEST_ID, blocks)) + EncodeFrame(ErrorFrame(text)));
            Occurs(inc.frames, 0, BlockFrames(REQUEST_ID, BlocksRead(blocks, text))) &&
            Stops(inc, REQUEST_ID, 0 + |BlocksRead(blocks, text)|)
  {
    hide ReadAll, EncodeFrame, StreamFrame, Sendable, Receiver.Chunk, PassedOn, CutAt, Reached, FileChunks, TextBytes;
    var frames, o := BlockFrames(REQUEST_ID, blocks), Reached(blocks);
    AllChunks(blocks);
    PassedOnIsCut(REQUEST_ID, blocks);
    ReadAfterCut(frames, o.k, o.headerOut, text);
    BlockFramesPrefix(REQUEST_ID, blocks, o.k);
    ErrorIsNoFileChunk(text);
    if o.headerOut {
      OneChunk(blocks[o.k]);
    }
    var e := EncodeFrame(ErrorFrame(text));
    var read := BlocksRead(blocks, text);
    if ReadAsBlock(blocks, text) {
      var block := ErrorBlock(blocks, text);
      SameHeader(blocks[o.k], block);
      BlockFramesAppend(REQUEST_ID, blocks[..o.k], [block]);
      assert BlockFrames(REQUEST_ID, [block]) == [StreamFrame(REQUEST_ID, StreamChannel.File, false, block)];
      assert frames[..o.k] + [Frame(frames[o.k].header, e[..|frames[o.k].payload|])] == BlockFrames(REQUEST_ID, read);
    } else {
      assert read == blocks[..o.k];
    }
  }

  /** A chunk's header tells only how long its payload is. */
  lemma SameHeader(lost: ReadBlock, block: ReadBlock)
    requires |lost| == |block|
    ensures StreamFrame(REQUEST_ID, StreamChannel.File, false, block) ==
            Frame(StreamFrame(REQUEST_ID, StreamChannel.File, false, lost).header, block)
  {
  }

  /** What the client reads after the metadata of a pull on which the daemon has given up. */
  function AfterMetadata(c: Codec, sources: seq<Source>, fileReads: seq<seq<ReadBlock>>, text: seq<Byte>): Incoming
    requires Fits(c, Metadata(sources)) && |text| <= MAX_PAYLOAD_LEN
  {
    var inc := ReadAll(DroppedPull(c, sources, fileReads) + EncodeFrame(ErrorFrame(text)));
    if inc.frames == [] then inc else From(inc, 1)
  }

  lemma MetadataFirst(c: Codec, sources: seq<Source>, fileReads: seq<seq<ReadBlock>>, text: seq<Byte>)
    requires Fits(c, Metadata(sources)) && |text| <= MAX_PAYLOAD_LEN
    ensures AfterMetadata(c, sources, fileReads, text) ==
            ReadAll(PassedOn(FileFrames(sources, fileReads).frames) + EncodeFrame(ErrorFrame(text)))
  {
    hide PassedOn, FileFrames, EncodeFrame, ReadAll;
    var meta, cut, e := MessageFrame(c, Metadata(sources)), PassedOn(FileFrames(sources, fileReads).frames), EncodeFrame(ErrorFrame(text));
    Associate(EncodeFrame(meta), cut, e);
    ReadAllStep(meta, cut + e);
    DropFirst(ReadAll(EncodeFrame(meta) + cut + e), meta, ReadAll(cut + e));
  }

  lemma FilesAfterMetadata(c: Codec, sources: seq<Source>, fileReads: seq<seq<ReadBlock>>, text: seq<Byte>)
    requires Fits(c, Metadata(sources)) && |text| <= MAX_PAYLOAD_LEN && TextBytes(text)
    ensures var sizes := FileSizes(ForestManifest(sources).files);
            WrittenFiles(AfterMetadata(c, sources, fileReads, text), REQUEST_ID, 0, sizes) ==
            Filled(sizes, BlocksRead(SentBlocks(sizes, fileReads), text))
  {
    hide *;
    var sizes := FileSizes(ForestManifest(sources).files);
    var blocks := SentBlocks(sizes, fileReads);
    MetadataFirst(c, sources, fileReads, text);
    BlocksOnWire(REQUEST_ID, sizes, fileReads);
    FileFramesAre(sources, fileReads);
    DroppedPullArrives(blocks, text);
    WrittenIsFilled(REQUEST_ID, BlocksRead(blocks, text), AfterMetadata(c, sources, fileReads, text), 0, sizes);
  }

  lemma FileFramesAre(sources: seq<Source>, fileReads: seq<seq<ReadBlock>>)
    ensures FileFrames(sources, fileReads) == StreamFiles(REQUEST_ID, FileSizes(ForestManifest(sources).files), fileReads)
  {
  }

  /** The reads of the files as the client sees them: one block may be a piece of the error response. */
  function SeenReads(sizes: seq<nat>, fileReads: seq<seq<ReadBlock>>, text: seq<Byte>): seq<seq<ReadBlock>>
    requires |text| <= MAX_PAYLOAD_LEN
  {
    var blocks := SentBlocks(sizes, fileReads);
    if ReadAsBlock(blocks, text) then Replaced(fileReads, Reached(blocks).k, ErrorBlock(blocks, text)) else fileReads
  }

  lemma SeenMeans(sizes: seq<nat>, fileReads: seq<seq<ReadBlock>>, text: seq<Byte>)
    requires |text| <= MAX_PAYLOAD_LEN
    ensures var blocks := SentBlocks(sizes, fileReads);
            var q := |BlocksRead(blocks, text)|;
            SameLengths(fileReads, SeenReads(sizes, fileReads, text)) &&
            q <= |SentBlocks(sizes, SeenReads(sizes, fileReads, text))| &&
            SentBlocks(sizes, SeenReads(sizes, fileReads, text))[..q] == BlocksRead(blocks, text)
  {
    hide Reached, EncodeFrame, SentBlocks, Replaced;
    var blocks := SentBlocks(sizes, fileReads);
    if ReadAsBlock(blocks, text) {
      ReplacedSends(sizes, fileReads, Reached(blocks).k, ErrorBlock(blocks, text));
    }
  }

  /**
   A pull that breaks off at file `j`, whose error response the client then reads: its files are filled with the blocks
   that had left the daemon's buffer and perhaps one block's worth of the response, each file up to `j` with a
   beginning of its own bytes so read. A later file gets bytes exactly when those blocks spill over.
   */
  lemma PullSpillsIff(c: Codec, sources: seq<Source>, fileReads: seq<seq<ReadBlock>>, j: nat, text: seq<Byte>)
    requires Fits(c, Metadata(sources)) && |text| <= MAX_PAYLOAD_LEN && TextBytes(text)
    requires FailsAt(FileSizes(ForestManifest(sources).files), fileReads, j)
    ensures var sizes := FileSizes(ForestManifest(sources).files);
            var read := BlocksRead(SentBlocks(sizes, fileReads), text);
            var written := WrittenFiles(AfterMetadata(c, sources, fileReads, text), REQUEST_ID, 0, sizes);
            written == Filled(sizes, read) && HoldOwn(SeenReads(sizes, fileReads, text), j, written) &&
            (WrittenBeyond(written, j) <==> SpillsOver(sizes, fileReads, j, |read|))
  {
    hide *;
    var sizes := FileSizes(ForestManifest(sources).files);
    var seen, q := SeenReads(sizes, fileReads, text), |BlocksRead(SentBlocks(sizes, fileReads), text)|;
    FilesAfterMetadata(c, sources, fileReads, text);
    SeenMeans(sizes, fileReads, text);
    LengthsDecide(sizes, fileReads, seen, j, q);
    SurplusLandsElsewhereIff(sizes, seen, j, q);
  }

  /** The client's files take all the blocks it reads, the piece of the error response with them. */
  predicate AllTaken(sizes: seq<nat>, blocks: seq<ReadBlock>) {
    Taken(sizes, Lengths(blocks)) == |blocks|
  }

  /**
   Bytes of the error response are written to a file exactly when a header had left the buffer without its block, the
   response is at least as long as that block, and there is room in the files for all blocks up to it. Then they come
   after everything else the files have got.
   */
  lemma ErrorWrittenIff(c: Codec, sources: seq<Source>, fileReads: seq<seq<ReadBlock>>, text: seq<Byte>)
    requires Fits(c, Metadata(sources)) && |text| <= MAX_PAYLOAD_LEN && TextBytes(text)
    ensures var sizes := FileSizes(ForestManifest(sources).files);
            var blocks := SentBlocks(sizes, fileReads);
            var k := Reached(blocks).k;
            var written := WrittenFiles(AfterMetadata(c, sources, fileReads, text), REQUEST_ID, 0, sizes);
            if ReadAsBlock(blocks, text) && AllTaken(sizes, blocks[..k + 1]) then
              Flatten(written) == Joined(blocks[..k]) + EncodeFrame(ErrorFrame(text))[..|blocks[k]|]
            else Flatten(written) <= Joined(blocks[..k])
  {
    hide *;
    var sizes := FileSizes(ForestManifest(sources).files);
    var blocks := SentBlocks(sizes, fileReads);
    FilesAfterMetadata(c, sources, fileReads, text);
    FilledIsTaken(sizes, BlocksRead(blocks, text));
    WithErrorBlock(sizes, blocks, text);
  }

  lemma WithErrorBlock(sizes: seq<nat>, blocks: seq<ReadBlock>, text: seq<Byte>)
    requires |text| <= MAX_PAYLOAD_LEN
    ensures var k, read := Reached(blocks).k, BlocksRead(blocks, text);
            |Lengths(read)| == |read| &&
            var all := Joined(read[..Taken(sizes, Lengths(read))]);
            if ReadAsBlock(blocks, text) && AllTaken(sizes, blocks[..k + 1]) then
              all == Joined(blocks[..k]) + EncodeFrame(ErrorFrame(text))[..|blocks[k]|]
            else all <= Joined(blocks[..k])
  {
    hide Reached, EncodeFrame, Joined, Taken, Lengths;
    var k, read := Reached(blocks).k, BlocksRead(blocks, text);
    LengthsAt(read);
    var n := Taken(sizes, Lengths(read));
    assert read[..k] == blocks[..k];
    if ReadAsBlock(blocks, text) {
      SameLengthsList(read, blocks[..k + 1]);
      if n == k + 1 {
        assert read[..n] == read;
        JoinedSplits(read, k);
        JoinedOne(ErrorBlock(blocks, text));
        assert read[k..] == [ErrorBlock(blocks, text)];
      }
    }
    if n <= k {
      assert read[..n] == blocks[..k][..n];
      JoinedPrefix(blocks[..k], n, k);
    }
  }

  lemma JoinedOne(block: ReadBlock)
    ensures Joined([block]) == block
  {
    assert [block][1..] == [];
  }

  lemma TwoBlocks(a: ReadBlock, b: ReadBlock)
    ensures Joined([a, b]) == a + b && Lengths([a, b]) == [|a|, |b|]
  {
    assert [a, b][1..] == [b];
    JoinedOne(b);
    LengthsAt([a, b]);
  }

  lemma ThreeBlocks(a: ReadBlock, b: ReadBlock, c: ReadBlock)
    ensures |Joined([a, b, c])| == |a| + |b| + |c| && Lengths([a, b, c]) == [|a|, |b|, |c|]
  {
    assert [a, b, c][1..] == [b, c];
    TwoBlocks(b, c);
    LengthsAt([a, b, c]);
  }

  lemma OutgoingOfTwo(x: nat, y: nat)
    ensures OutgoingOf([x, y]) == Forward(Forward(Outgoing(0, false, 0), 0, x), 1, y)
  {
    assert [x, y][..1] == [x] && [x][..0] == [];
    assert OutgoingOf([x]) == Forward(Outgoing(0, false, 0), 0, x);
  }

  lemma OutgoingOfThree(x: nat, y: nat, z: nat)
    ensures OutgoingOf([x, y, z]) == Forward(OutgoingOf([x, y]), 2, z)
  {
    assert [x, y, z][..2] == [x, y];
  }

  lemma SameLengthsList(a: seq<ReadBlock>, b: seq<ReadBlock>)
    requires |a| == |b| && forall i | 0 <= i < |a| :: |a[i]| == |b[i]|
    ensures Lengths(a) == Lengths(b)
  {
    LengthsAt(a);
    LengthsAt(b);
  }

  // ---------------------------------------------------------------------
  // When it happens, and when not
  // ---------------------------------------------------------------------

  lemma WireByLengths(frames: seq<Frame>, f: Frame)
    ensures |Wire(frames + [f])| == |Wire(frames)| + HEADER_LEN + |f.payload|
  {
    WireAppendOne(frames, f);
    hide EncodeHeader, Wire;
    assert |EncodeFrame(f)| == HEADER_LEN + |f.payload|;
  }

  /** A run of frames leaves something on the connection exactly when it does not fit the buffer as a whole. */
  lemma {:induction false} NothingLeavesIff(frames: seq<Frame>)
    requires FileChunks(frames)
    ensures PassedOn(frames) == [] <==> |Wire(frames)| <= STREAM_BUFFER
    ensures PassedOn(frames) == [] ==> OutgoingOf(PayloadLengths(frames)) == Outgoing(0, false, |Wire(frames)|)
  {
    hide Wire, EncodeHeader, CutAt, FileChunks, OutgoingOf, PayloadLengths;
    EmptyRun();
    if frames != [] {
      var n := |frames| - 1;
      var before, f := frames[..n], frames[n];
      assert frames == before + [f];
      ChunksSplit(frames, n);
      NothingLeavesIff(before);
      OutgoingStep(before, f);
      WireByLengths(before, f);
      var o, o' := OutgoingOf(PayloadLengths(before)), OutgoingOf(PayloadLengths(frames));
      CutIsEmptyIff(before, o.k, o.headerOut);
      CutIsEmptyIff(frames, o'.k, o'.headerOut);
    }
  }

  lemma EmptyRun()
    ensures Wire([]) == [] && PassedOn([]) == [] && OutgoingOf(PayloadLengths([])) == Outgoing(0, false, 0)
  {
    assert PayloadLengths([]) == [];
  }

  lemma ChunksSplit(frames: seq<Frame>, n: nat)
    requires FileChunks(frames) && n < |frames|
    ensures FileChunks(frames[..n]) && 0 < |frames[n].payload|
  {
    hide Sendable, Receiver.Chunk;
    assert frames[n] in frames;
    assert forall f | f in frames[..n] :: f in frames;
  }

  lemma CutIsEmptyIff(frames: seq<Frame>, k: nat, headerOut: bool)
    requires k <= |frames| && (headerOut ==> k < |frames|)
    ensures CutAt(frames, k, headerOut) == [] <==> k == 0 && !headerOut
  {
    if k > 0 {
      assert frames[..k] != [];
      assert |EncodeFrame(frames[0])| > 0;
    } else {
      assert frames[..k] == [];
    }
  }

  /** The last frame of a run never arrives whole. */
  lemma LastFrameIsLost(frames: seq<Frame>)
    requires FileChunks(frames) && frames != []
    ensures |PassedOn(frames)| < |Wire(frames)|
  {
    hide Wire, EncodeHeader, OutgoingOf, PayloadLengths, FileChunks;
    var o, n := OutgoingOf(PayloadLengths(frames)), |frames| - 1;
    OutgoingWithin(frames);
    ChunksSplit(frames, o.k);
    var rest := frames[o.k + 1..];
    assert frames == frames[..o.k] + [frames[o.k]] + rest;
    WireAppend(frames[..o.k] + [frames[o.k]], rest);
    WireByLengths(frames[..o.k], frames[o.k]);
  }

  lemma OutgoingWithin(frames: seq<Frame>)
    requires frames != []
    ensures OutgoingOf(PayloadLengths(frames)).k < |frames|
  {
  }

  /**
   Files do get other files' bytes: of a first file of one full block, read as three, two arrive, and the second fills
   the second file.
   */
  lemma FullBlocksSpill(m: BatchManifest, a: ReadBlock, b: ReadBlock, c: ReadBlock, later: seq<seq<ReadBlock>>)
    requires FileSizes(m.files) == [DEFAULT_STREAM_CHUNK_SIZE, DEFAULT_STREAM_CHUNK_SIZE]
    requires |a| == |b| == |c| == DEFAULT_STREAM_CHUNK_SIZE
    ensures var fileReads := [[a, b, c]] + later;
            FailsAt(FileSizes(m.files), fileReads, 0) &&
            WrittenFiles(ReadAll(StreamedBytes(m, fileReads)), REQUEST_ID, 0, FileSizes(m.files)) == [a, b]
  {
    hide *;
    var sizes, fileReads := FileSizes(m.files), [[a, b, c]] + later;
    ThreeFullBlocks(sizes, a, b, c, later);
    PushSpillsIff(m, fileReads, 0);
  }

  lemma ThreeFullBlocks(sizes: seq<nat>, a: ReadBlock, b: ReadBlock, c: ReadBlock, later: seq<seq<ReadBlock>>)
    requires sizes == [DEFAULT_STREAM_CHUNK_SIZE, DEFAULT_STREAM_CHUNK_SIZE]
    requires |a| == |b| == |c| == DEFAULT_STREAM_CHUNK_SIZE
    ensures var fileReads := [[a, b, c]] + later;
            var blocks := SentBlocks(sizes, fileReads);
            FailsAt(sizes, fileReads, 0) && Reached(blocks).k == 2 && Filled(sizes, blocks[..2]) == [a, b]
  {
    var fileReads := [[a, b, c]] + later;
    var n := DEFAULT_STREAM_CHUNK_SIZE;
    ThreeBlocks(a, b, c);
    hide Joined, Lengths, Filled;
    assert SentBlocks(sizes, fileReads) == [a, b, c];
    OutgoingOfTwo(n, n);
    OutgoingOfThree(n, n, n);
    hide OutgoingOf;
    assert [a, b, c][..2] == [a] + [b] && [b] + [] == [b] && sizes[1..] == [n] && [n][1..] == [];
    JoinedOne(a);
    JoinedOne(b);
    NothingFilled([]);
    WholeFirst(sizes, [a], [b]);
    WholeFirst([n], [b], []);
  }

  /**
   And to bytes of the error response: of a file that yields two blocks which do not fit the buffer together while the
   second header still does, the response takes the place of the second, if it is long enough.
   */
  lemma ErrorTakesBlock(c: Codec, sources: seq<Source>, a: ReadBlock, b: ReadBlock, later: seq<seq<ReadBlock>>, text: seq<Byte>)
    requires Fits(c, Metadata(sources)) && |text| <= MAX_PAYLOAD_LEN && TextBytes(text)
    requires |a| + HEADER_LEN <= DEFAULT_STREAM_CHUNK_SIZE < |a| + |b| + HEADER_LEN
    requires FileSizes(ForestManifest(sources).files) == [|a| + |b| + 1] && |b| <= |EncodeFrame(ErrorFrame(text))|
    ensures WrittenFiles(AfterMetadata(c, sources, [[a, b]] + later, text), REQUEST_ID, 0, [|a| + |b| + 1]) ==
            [a + EncodeFrame(ErrorFrame(text))[..|b|]]
  {
    hide *;
    var sizes, fileReads := [|a| + |b| + 1], [[a, b]] + later;
    FilesAfterMetadata(c, sources, fileReads, text);
    SecondHeaderOut(sizes, a, b, later, text);
  }

  lemma SecondHeaderOut(sizes: seq<nat>, a: ReadBlock, b: ReadBlock, later: seq<seq<ReadBlock>>, text: seq<Byte>)
    requires |text| <= MAX_PAYLOAD_LEN && |b| <= |EncodeFrame(ErrorFrame(text))| && sizes == [|a| + |b| + 1]
    requires |a| + HEADER_LEN <= DEFAULT_STREAM_CHUNK_SIZE < |a| + |b| + HEADER_LEN
    ensures var blocks := SentBlocks(sizes, [[a, b]] + later);
            Filled(sizes, BlocksRead(blocks, text)) == [a + EncodeFrame(ErrorFrame(text))[..|b|]]
  {
    hide EncodeFrame;
    var e := EncodeFrame(ErrorFrame(text));
    TwoBlocks(a, b);
    hide Joined, Lengths, Filled, Fit;
    var blocks := SentBlocks(sizes, [[a, b]] + later);
    assert blocks == [a, b];
    OutgoingOfTwo(|a|, |b|);
    hide OutgoingOf;
    assert Reached(blocks) == Outgoing(1, true, |b|);
    var read: seq<ReadBlock> := [a, e[..|b|]];
    assert BlocksRead(blocks, text) == read;
    TwoBlocks(a, e[..|b|]);
    FitAll(read, sizes[0]);
    assert read[..2] == read;
    FilledUnfolds(sizes, read);
  }
}
