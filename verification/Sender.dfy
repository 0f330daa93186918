/**
 The sending half of a batch transfer: each file is read to its end, however
 the reads fall, and every read becomes one frame.
 */
module Sender {
  import opened Base
  import opened Frames
  import opened Paths
  import opened FileSystem
  import opened Manifest
  import opened Receiver

  /** What one read of a file returns before its end. */
  type ReadBlock = b: seq<Byte> | 0 < |b| <= DEFAULT_STREAM_CHUNK_SIZE witness [0]

  /** What opening the file at a path and reading it to its end returns; nothing if it cannot be opened. */
  type FileReader = Path -> Option<seq<ReadBlock>>

  /** The reads of a list of files, up to one that cannot be opened. */
  function ReadsOf(read: FileReader, files: seq<BatchFile>): (fileReads: seq<seq<ReadBlock>>)
    ensures |fileReads| <= |files|
    ensures forall i | 0 <= i < |fileReads| :: read(files[i].path) == Some(fileReads[i])
    ensures |fileReads| < |files| ==> read(files[|fileReads|].path) == None
  {
    if files == [] then []
    else
      match read(files[0].path)
      case None => []
      case Some(blocks) => [blocks] + ReadsOf(read, files[1..])
  }

  function BlockFrames(rid: U32, blocks: seq<ReadBlock>): (frames: seq<Frame>)
    ensures |frames| == |blocks|
    ensures forall i | 0 <= i < |blocks| :: frames[i] == StreamFrame(rid, StreamChannel.File, false, blocks[i])
  {
    if blocks == [] then []
    else [StreamFrame(rid, StreamChannel.File, false, blocks[0])] + BlockFrames(rid, blocks[1..])
  }

  function Joined(blocks: seq<ReadBlock>): seq<Byte> {
    if blocks == [] then [] else blocks[0] + Joined(blocks[1..])
  }

  datatype Sending = Sending(frames: seq<Frame>, result: Result<nat, TransferError>)

  /** The frames sent for files of the given sizes whose reads return `fileReads`; a file without reads cannot be opened. */
  function StreamFiles(rid: U32, sizes: seq<nat>, fileReads: seq<seq<ReadBlock>>): Sending
    decreases |sizes|
  {
    if sizes == [] then Sending([], Ok(0))
    else if fileReads == [] then Sending([], Err(OnDisk(NotFound)))
    else
      var here := BlockFrames(rid, fileReads[0]);
      if |Joined(fileReads[0])| != sizes[0] then Sending(here, Err(SourceChanged))
      else
        var later := StreamFiles(rid, sizes[1..], fileReads[1..]);
        Sending(here + later.frames,
                match later.result
                case Ok(n) => Ok(sizes[0] + n)
                case Err(e) => Err(e))
  }

  /** Every file's reads add up to the size its manifest entry promised. */
  ghost predicate SizesKept(sizes: seq<nat>, fileReads: seq<seq<ReadBlock>>) {
    |sizes| <= |fileReads| && forall i | 0 <= i < |sizes| :: |Joined(fileReads[i])| == sizes[i]
  }

  /**
   Streaming succeeds exactly when no file's byte count changed - differences that cancel do not pass - and
   then the total it reports is the manifest's total, so the later comparison with that total cannot fail.
   */
  lemma {:induction false} StreamSucceedsIffUnchanged(rid: U32, sizes: seq<nat>, fileReads: seq<seq<ReadBlock>>)
    ensures StreamFiles(rid, sizes, fileReads).result.Ok? <==> SizesKept(sizes, fileReads)
    ensures SizesKept(sizes, fileReads) ==> StreamFiles(rid, sizes, fileReads).result == Ok(Sum(sizes))
    decreases |sizes|
  {
    hide BlockFrames, Joined;
    if sizes != [] && fileReads != [] {
      StreamSucceedsIffUnchanged(rid, sizes[1..], fileReads[1..]);
      if SizesKept(sizes[1..], fileReads[1..]) && |Joined(fileReads[0])| == sizes[0] {
        forall i | 0 <= i < |sizes|
          ensures |Joined(fileReads[i])| == sizes[i]
        {
          if i > 0 {
            assert |Joined(fileReads[1..][i - 1])| == sizes[1..][i - 1];
          }
        }
      }
    }
  }

  lemma {:induction false} StreamedFrames(rid: U32, sizes: seq<nat>, fileReads: seq<seq<ReadBlock>>)
    ensures forall f | f in StreamFiles(rid, sizes, fileReads).frames ::
              Sendable(f) && Receiver.Chunk(f, rid) == Ok(false) && |f.payload| > 0
    decreases |sizes|
  {
    if sizes != [] && fileReads != [] {
      forall f | f in BlockFrames(rid, fileReads[0])
        ensures Sendable(f) && Receiver.Chunk(f, rid) == Ok(false) && |f.payload| > 0
      {
        var i :| 0 <= i < |fileReads[0]| && BlockFrames(rid, fileReads[0])[i] == f;
        BlockIsChunk(rid, fileReads[0][i]);
      }
      StreamedFrames(rid, sizes[1..], fileReads[1..]);
      hide Sendable, Receiver.Chunk, BlockFrames;
    }
  }

  lemma BlockIsChunk(rid: U32, block: ReadBlock)
    ensures Receiver.Chunk(StreamFrame(rid, StreamChannel.File, false, block), rid) == Ok(false)
  {
    hide StreamFlags;
    StreamHeaderRoundTrip(rid, StreamChannel.File, false, block);
  }

  // ---------------------------------------------------------------------
  // The streaming loop behind its buffered writer
  // ---------------------------------------------------------------------

  /** Bytes that stop between two frames, or between a frame's header and its payload. */
  ghost predicate AtBoundary(frames: seq<Frame>, bytes: seq<Byte>) {
    exists k: nat | k <= |frames| ::
      bytes == Wire(frames[..k]) || (k < |frames| && bytes == Wire(frames[..k]) + EncodeHeader(frames[k].header))
  }

  lemma WireAppendOne(frames: seq<Frame>, f: Frame)
    ensures Wire(frames + [f]) == Wire(frames) + EncodeFrame(f)
  {
    WireAppend(frames, [f]);
    WireOne(f);
  }

  /** A cut between two frames, or after the header of the next one. */
  function CutAt(frames: seq<Frame>, k: nat, headerOut: bool): seq<Byte>
    requires k <= |frames| && (headerOut ==> k < |frames|)
  {
    Wire(frames[..k]) + if headerOut then EncodeHeader(frames[k].header) else []
  }

  /** The writer's buffer has room for one header and one full block. */
  const STREAM_BUFFER: nat := HEADER_LEN + DEFAULT_STREAM_CHUNK_SIZE

  /**
   Where a run of frames stands behind the buffer: `k` frames have left it, perhaps the next one's header too, and
   `held` bytes are still in it.
   */
  datatype Outgoing = Outgoing(k: nat, headerOut: bool, held: nat)

  /** One more frame, the one after the first `n`, with a payload of `len` bytes. */
  function Forward(o: Outgoing, n: nat, len: nat): Outgoing {
    var ready := if o.held + HEADER_LEN > STREAM_BUFFER then Outgoing(n, false, 0) else o;
    if ready.held + HEADER_LEN + len > STREAM_BUFFER then Outgoing(n, true, len)
    else ready.(held := ready.held + HEADER_LEN + len)
  }

  /** Frames with payloads of these lengths, one after the other. */
  function OutgoingOf(lens: seq<nat>): (o: Outgoing)
    ensures o.k <= |lens| && (o.headerOut ==> o.k < |lens|)
    ensures lens != [] ==> o.k < |lens|
  {
    if lens == [] then Outgoing(0, false, 0)
    else Forward(OutgoingOf(lens[..|lens| - 1]), |lens| - 1, lens[|lens| - 1])
  }

  function PayloadLengths(frames: seq<Frame>): (lens: seq<nat>)
    ensures |lens| == |frames|
    ensures forall i | 0 <= i < |frames| :: lens[i] == |frames[i].payload|
  {
    seq(|frames|, i requires 0 <= i < |frames| => |frames[i].payload|)
  }

  /** What has left the buffer of a run of frames, which is what remains of it when the buffer is dropped. */
  function PassedOn(frames: seq<Frame>): seq<Byte> {
    var o := OutgoingOf(PayloadLengths(frames));
    CutAt(frames, o.k, o.headerOut)
  }

  lemma PassedOnIsBoundary(frames: seq<Frame>)
    ensures AtBoundary(frames, PassedOn(frames))
  {
    hide Wire, EncodeHeader;
    var o := OutgoingOf(PayloadLengths(frames));
    assert PassedOn(frames) == CutAt(frames, o.k, o.headerOut);
    assert Wire(frames[..o.k]) + [] == Wire(frames[..o.k]);
  }

  lemma OutgoingStep(frames: seq<Frame>, f: Frame)
    ensures OutgoingOf(PayloadLengths(frames + [f])) == Forward(OutgoingOf(PayloadLengths(frames)), |frames|, |f.payload|)
  {
    var lens, more := PayloadLengths(frames), PayloadLengths(frames + [f]);
    assert more == lens + [|f.payload|];
    assert more[..|more| - 1] == lens;
  }

  lemma CutExtends(frames: seq<Frame>, f: Frame, k: nat, headerOut: bool)
    requires k <= |frames| && (headerOut ==> k < |frames|)
    ensures CutAt(frames + [f], k, headerOut) == CutAt(frames, k, headerOut)
    ensures CutAt(frames + [f], |frames|, false) == Wire(frames)
    ensures CutAt(frames + [f], |frames|, true) == Wire(frames) + EncodeHeader(f.header)
  {
    hide Wire, EncodeHeader;
    assert (frames + [f])[..k] == frames[..k];
    assert (frames + [f])[..|frames|] == frames;
    assert Wire(frames) + [] == Wire(frames);
  }

  /** Where a buffered stream of frames stands: part of it on the connection, the rest in the buffer. */
  ghost predicate Streaming(start: seq<Byte>, frames: seq<Frame>, output: seq<Byte>, buffer: seq<Byte>) {
    output + buffer == start + Wire(frames) && output == start + PassedOn(frames) &&
    |buffer| == OutgoingOf(PayloadLengths(frames)).held
  }

  /** The two writes of a frame, by the lengths alone. */
  lemma PutFrameByLengths(output: seq<Byte>, buffer: seq<Byte>, o: Outgoing, n: nat, f: Frame)
    requires |buffer| == o.held && 0 < |f.payload| <= DEFAULT_STREAM_CHUNK_SIZE
    ensures var (out, held) := PutFrame(STREAM_BUFFER, output, buffer, f);
            var next := Forward(o, n, |f.payload|);
            |held| == next.held && out + held == output + buffer + EncodeFrame(f) &&
            ((out == output && next.k == o.k && next.headerOut == o.headerOut) ||
             (out == output + buffer && next.k == n && !next.headerOut) ||
             (out == output + buffer + EncodeHeader(f.header) && next.k == n && next.headerOut))
  {
    hide EncodeHeader;
    var x := EncodeHeader(f.header);
    assert |x| == HEADER_LEN && EncodeFrame(f) == x + f.payload;
    var (out, held) := Put(STREAM_BUFFER, output, buffer, x);
    assert out + held == output + buffer + x;
    var (out', held') := Put(STREAM_BUFFER, out, held, f.payload);
    assert out' + held' == out + held + f.payload;
    assert out' + held' == output + buffer + (x + f.payload);
  }

  lemma StreamingStep(start: seq<Byte>, frames: seq<Frame>, f: Frame,
                      output0: seq<Byte>, buffer0: seq<Byte>, output: seq<Byte>, buffer: seq<Byte>)
    requires Streaming(start, frames, output0, buffer0) && 0 < |f.payload| <= DEFAULT_STREAM_CHUNK_SIZE
    requires (output, buffer) == PutFrame(STREAM_BUFFER, output0, buffer0, f)
    ensures Streaming(start, frames + [f], output, buffer)
  {
    hide Wire, EncodeHeader, EncodeFrame, CutAt, PutFrame, OutgoingOf, Forward, PayloadLengths;
    var o := OutgoingOf(PayloadLengths(frames));
    PutFrameByLengths(output0, buffer0, o, |frames|, f);
    OutgoingStep(frames, f);
    WireAppendOne(frames, f);
    CutExtends(frames, f, o.k, o.headerOut);
    Associate(start, Wire(frames), EncodeFrame(f));
    Associate(start, Wire(frames), EncodeHeader(f.header));
  }

  /** The read loop over one open file. */
  method StreamOneFile(writer: Writer, rid: U32, blocks: seq<ReadBlock>, ghost start: seq<Byte>, ghost sent: seq<Frame>)
    returns (fileBytes: nat)
    requires writer.capacity == STREAM_BUFFER && Streaming(start, sent, writer.output, writer.buffer)
    modifies writer`output, writer`buffer
    ensures fileBytes == |Joined(blocks)|
    ensures Streaming(start, sent + BlockFrames(rid, blocks), writer.output, writer.buffer)
  {
    fileBytes := 0;
    ghost var frames := sent;
    var pos := 0;
    BlocksStart(rid, blocks, sent);
    hide *;
    while pos < |blocks|
      invariant pos <= |blocks|
      invariant BlocksSent(rid, blocks, sent, pos, frames, fileBytes)
      invariant Streaming(start, frames, writer.output, writer.buffer)
    {
      var block := blocks[pos];
      ghost var f := StreamFrame(rid, StreamChannel.File, false, block);
      ghost var output0, buffer0 := writer.output, writer.buffer;
      var wrote := WriteStreamFrame(writer, rid, StreamChannel.File, false, block);
      StreamingStep(start, frames, f, output0, buffer0, writer.output, writer.buffer);
      BlocksStep(rid, blocks, sent, pos, frames, fileBytes);
      frames := frames + [f];
      fileBytes := fileBytes + |block|;
      pos := pos + 1;
    }
    BlocksEnd(rid, blocks, sent, frames, fileBytes);
  }

  /** The first `pos` blocks are sent and counted. */
  ghost predicate BlocksSent(rid: U32, blocks: seq<ReadBlock>, sent: seq<Frame>, pos: nat,
                             frames: seq<Frame>, fileBytes: nat)
    requires pos <= |blocks|
  {
    frames + BlockFrames(rid, blocks[pos..]) == sent + BlockFrames(rid, blocks) &&
    fileBytes + |Joined(blocks[pos..])| == |Joined(blocks)|
  }

  lemma BlocksStart(rid: U32, blocks: seq<ReadBlock>, sent: seq<Frame>)
    ensures BlocksSent(rid, blocks, sent, 0, sent, 0)
  {
    assert blocks[0..] == blocks;
  }

  lemma BlocksStep(rid: U32, blocks: seq<ReadBlock>, sent: seq<Frame>, pos: nat, frames: seq<Frame>, fileBytes: nat)
    requires pos < |blocks| && BlocksSent(rid, blocks, sent, pos, frames, fileBytes)
    ensures BlocksSent(rid, blocks, sent, pos + 1,
                       frames + [StreamFrame(rid, StreamChannel.File, false, blocks[pos])], fileBytes + |blocks[pos]|)
  {
    hide StreamFlags;
    var f := StreamFrame(rid, StreamChannel.File, false, blocks[pos]);
    assert blocks[pos..][1..] == blocks[pos + 1..];
    assert frames + ([f] + BlockFrames(rid, blocks[pos + 1..])) == frames + [f] + BlockFrames(rid, blocks[pos + 1..]);
  }

  lemma BlocksEnd(rid: U32, blocks: seq<ReadBlock>, sent: seq<Frame>, frames: seq<Frame>, fileBytes: nat)
    requires BlocksSent(rid, blocks, sent, |blocks|, frames, fileBytes)
    ensures frames == sent + BlockFrames(rid, blocks) && fileBytes == |Joined(blocks)|
  {
    assert frames + [] == frames;
  }

  /** The frames sent and the bytes counted so far, and streaming files `i` on completes the whole. */
  ghost predicate FilesSent(rid: U32, sizes: seq<nat>, fileReads: seq<seq<ReadBlock>>, i: nat,
                            sent: seq<Frame>, total: nat)
    requires i <= |sizes| && i <= |fileReads|
  {
    var whole, later := StreamFiles(rid, sizes, fileReads), StreamFiles(rid, sizes[i..], fileReads[i..]);
    whole.frames == sent + later.frames &&
    whole.result == match later.result case Ok(n) => Ok(total + n) case Err(e) => Err(e)
  }

  lemma NoFilesSent(rid: U32, sizes: seq<nat>, fileReads: seq<seq<ReadBlock>>)
    ensures FilesSent(rid, sizes, fileReads, 0, [], 0)
  {
    assert sizes[0..] == sizes && fileReads[0..] == fileReads;
  }

  /** What the next file does: missing or changed it ends the stream, otherwise its frames join the rest. */
  lemma NextFile(rid: U32, sizes: seq<nat>, fileReads: seq<seq<ReadBlock>>, i: nat, sent: seq<Frame>, total: nat)
    requires i < |sizes| && i <= |fileReads| && FilesSent(rid, sizes, fileReads, i, sent, total)
    ensures var whole := StreamFiles(rid, sizes, fileReads);
            if i == |fileReads| then whole == Sending(sent, Err(OnDisk(NotFound)))
            else
              var more := sent + BlockFrames(rid, fileReads[i]);
              if |Joined(fileReads[i])| != sizes[i] then whole == Sending(more, Err(SourceChanged))
              else FilesSent(rid, sizes, fileReads, i + 1, more, total + sizes[i])
  {
    hide BlockFrames, Joined;
    assert sizes[i..][1..] == sizes[i + 1..];
    if i == |fileReads| {
      assert sent + [] == sent;
    } else {
      assert fileReads[i..][1..] == fileReads[i + 1..];
      var here, later := BlockFrames(rid, fileReads[i]), StreamFiles(rid, sizes[i + 1..], fileReads[i + 1..]);
      assert sent + (here + later.frames) == sent + here + later.frames;
    }
  }

  lemma AllFilesSent(rid: U32, sizes: seq<nat>, fileReads: seq<seq<ReadBlock>>, sent: seq<Frame>, total: nat)
    requires |sizes| <= |fileReads| && FilesSent(rid, sizes, fileReads, |sizes|, sent, total)
    ensures StreamFiles(rid, sizes, fileReads) == Sending(sent, Ok(total))
  {
    assert sizes[|sizes|..] == [] && sent + [] == sent;
  }

  /** What a finished or abandoned stream of files has put on the connection. */
  ghost predicate StreamEnds(sending: Sending, start: seq<Byte>, output: seq<Byte>, r: Result<nat, TransferError>) {
    r == sending.result && start <= output &&
    (r.Ok? ==> output == start + Wire(sending.frames)) &&
    (r.Err? ==> output == start + PassedOn(sending.frames))
  }

  lemma StreamingStart(start: seq<Byte>)
    ensures Streaming(start, [], start, [])
  {
    assert PayloadLengths([]) == [];
    assert start + Wire([]) == start;
  }

  lemma StreamingStops(start: seq<Byte>, frames: seq<Frame>, output: seq<Byte>, buffer: seq<Byte>, error: TransferError)
    requires Streaming(start, frames, output, buffer)
    ensures StreamEnds(Sending(frames, Err(error)), start, output, Err(error))
  {
  }

  lemma StreamingCompletes(start: seq<Byte>, frames: seq<Frame>, output: seq<Byte>, buffer: seq<Byte>, total: nat)
    requires Streaming(start, frames, output, buffer)
    ensures StreamEnds(Sending(frames, Ok(total)), start, output + buffer, Ok(total))
  {
  }

  /** Opens file `i`, streams it to its end, and compares its byte count with the size in the manifest. */
  method StreamNextFile(writer: Writer, rid: U32, file: BatchFile, read: FileReader, ghost i: nat, ghost start: seq<Byte>,
                        ghost sizes: seq<nat>, ghost fileReads: seq<seq<ReadBlock>>, ghost before: seq<Frame>, ghost total: nat)
    returns (r: Result<nat, TransferError>, ghost sent: seq<Frame>)
    requires i < |sizes| && sizes[i] == file.size && i <= |fileReads|
    requires read(file.path) == if i < |fileReads| then Some(fileReads[i]) else None
    requires FilesSent(rid, sizes, fileReads, i, before, total)
    requires writer.capacity == STREAM_BUFFER && Streaming(start, before, writer.output, writer.buffer)
    modifies writer`output, writer`buffer
    ensures Streaming(start, sent, writer.output, writer.buffer)
    ensures r.Err? ==> StreamFiles(rid, sizes, fileReads) == Sending(sent, Err(r.error))
    ensures r.Ok? ==> i < |fileReads| && FilesSent(rid, sizes, fileReads, i + 1, sent, total + r.value)
  {
    hide *;
    NextFile(rid, sizes, fileReads, i, before, total);
    var found := read(file.path);
    if found.None? {
      sent := before;
      return Err(OnDisk(NotFound)), sent;
    }
    var blocks := found.value;
    var fileBytes := StreamOneFile(writer, rid, blocks, start, before);
    sent := before + BlockFrames(rid, blocks);
    if fileBytes != file.size {
      return Err(SourceChanged), sent;
    }
    r := Ok(fileBytes);
  }

  /**
   Opens and streams the files by their paths, through a buffer of one header and one full block. On success everything is on the
   connection; on failure the buffer is dropped and the connection has what had left it by then.
   */
  method StreamBatchFiles(writer: Writer, rid: U32, files: seq<BatchFile>, read: FileReader)
    returns (r: Result<nat, TransferError>)
    requires writer.buffer == [] && writer.capacity == 0
    modifies writer
    ensures writer.buffer == [] && writer.capacity == 0
    ensures StreamEnds(StreamFiles(rid, FileSizes(files), ReadsOf(read, files)), old(writer.output), writer.output, r)
  {
    hide *;
    ghost var start, sizes, fileReads := writer.output, FileSizes(files), ReadsOf(read, files);
    writer.capacity := STREAM_BUFFER;
    ghost var sent: seq<Frame> := [];
    var total: nat := 0;
    FileSizesAt(files);
    StreamingStart(start);
    NoFilesSent(rid, sizes, fileReads);
    for i := 0 to |files|
      invariant i <= |fileReads| && FilesSent(rid, sizes, fileReads, i, sent, total)
      invariant writer.capacity == STREAM_BUFFER && Streaming(start, sent, writer.output, writer.buffer)
    {
      var fileBytes;
      fileBytes, sent := StreamNextFile(writer, rid, files[i], read, i, start, sizes, fileReads, sent, total);
      if fileBytes.Err? {
        StreamingStops(start, sent, writer.output, writer.buffer, fileBytes.error);
        writer.Drop();
        return Err(fileBytes.error);
      }
      total := total + fileBytes.value;
    }
    AllFilesSent(rid, sizes, fileReads, sent, total);
    StreamingCompletes(start, sent, writer.output, writer.buffer, total);
    writer.Flush();
    writer.Drop();
    r := Ok(total);
  }

  lemma {:induction false} FileSizesAt(files: seq<BatchFile>)
    ensures |FileSizes(files)| == |files|
    ensures forall i | 0 <= i < |files| :: FileSizes(files)[i] == files[i].size
  {
    if files != [] {
      FileSizesAt(files[1..]);
    }
  }
}
