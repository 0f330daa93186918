/**
 The receiving half of a batch transfer. The incoming frames carry no file
 identity: an entry's content is whatever the next frames hold, up to the size
 the manifest promised.
 */
module Receiver {
  import opened Base
  import opened Frames
  import opened Paths
  import opened Trees
  import opened FileSystem
  import opened Manifest
  import opened Overlay

  datatype TransferError =
    | OnWire(protocol: ProtocolError)
    | OnDisk(disk: FsError)
    | InBatchManifest(manifest: ManifestError)
    | BadPath(path: PathError)
    | WrongRequest(requestId: U32)
    | WrongChannel(channel: StreamChannel)
    | EndedEarly
    | Overran
    | ExpectedEof
    | NoRoots
    | EmptyDestination
    | NotADirectoryDestination
    | SourceChanged
    | UnexpectedResponse
    | CountMismatch
    | RemoteError

  // ---------------------------------------------------------------------
  // Positions in an incoming stream
  // ---------------------------------------------------------------------

  /** The bytes left after the first `n` good frames. */
  function AfterFrames(input: seq<Byte>, n: nat): seq<Byte>
    requires n <= |ReadAll(input).frames|
    decreases n
  {
    if n == 0 then input else AfterFrames(ReadFrame(input).value.1, n - 1)
  }

  lemma {:induction false} AfterFramesNext(input: seq<Byte>, n: nat)
    requires n <= |ReadAll(input).frames|
    ensures n < |ReadAll(input).frames| ==>
              ReadFrame(AfterFrames(input, n)) == Ok((ReadAll(input).frames[n], AfterFrames(input, n + 1)))
    ensures n == |ReadAll(input).frames| ==> ReadFrame(AfterFrames(input, n)) == Err(ReadAll(input).error)
    decreases n
  {
    hide ReadFrame;
    if n != 0 {
      AfterFramesNext(ReadFrame(input).value.1, n - 1);
    }
  }

  lemma {:induction false} AfterWire(frames: seq<Frame>, tail: seq<Byte>)
    requires forall f | f in frames :: Sendable(f)
    ensures |frames| <= |ReadAll(Wire(frames) + tail).frames|
    ensures AfterFrames(Wire(frames) + tail, |frames|) == tail
  {
    hide ReadFrame, EncodeFrame, Sendable, ReadAll;
    ReadAllWire(frames, tail);
    if frames == [] {
      assert Wire(frames) + tail == tail;
    } else {
      var later := Wire(frames[1..]) + tail;
      assert Wire(frames) + tail == EncodeFrame(frames[0]) + later;
      ReadFrameEncoded(frames[0], later);
      AfterWire(frames[1..], tail);
    }
  }

  // ---------------------------------------------------------------------
  // Specification: what the frames from position `at` on mean
  // ---------------------------------------------------------------------

  /** A File-channel frame of this request, and whether it is the EOF marker. */
  function Chunk(f: Frame, rid: U32): Result<bool, TransferError> {
    match DecodeStreamHeader(f.header)
    case Err(e) => Err(OnWire(e))
    case Ok(h) =>
      if h.requestId != rid then Err(WrongRequest(h.requestId))
      else if h.channel != StreamChannel.File then Err(WrongChannel(h.channel))
      else Ok(h.eof)
  }

  datatype DataOutcome = Received(data: seq<Byte>, next: nat) | Broken(data: seq<Byte>, error: TransferError)

  function Prepend(bytes: seq<Byte>, later: DataOutcome): DataOutcome {
    match later
    case Received(data, next) => Received(bytes + data, next)
    case Broken(data, error) => Broken(bytes + data, error)
  }

  /** The frame at `at` as content of a file that wants `remaining` more bytes. */
  function ContentAt(inc: Incoming, rid: U32, at: nat, remaining: nat): (r: Result<seq<Byte>, TransferError>)
    requires at <= |inc.frames|
    ensures r.Ok? ==> at < |inc.frames| && |r.value| <= remaining
  {
    if at == |inc.frames| then Err(OnWire(inc.error))
    else
      var eof :- Chunk(inc.frames[at], rid);
      if eof then Err(EndedEarly)
      else if |inc.frames[at].payload| > remaining then Err(Overran)
      else Ok(inc.frames[at].payload)
  }

  /** Reads one file of `remaining` more bytes. */
  function ReceiveData(inc: Incoming, rid: U32, at: nat, remaining: nat): DataOutcome
    requires at <= |inc.frames|
    decreases |inc.frames| - at
  {
    if remaining == 0 then Received([], at)
    else
      match ContentAt(inc, rid, at, remaining)
      case Err(e) => Broken([], e)
      case Ok(bytes) => Prepend(bytes, ReceiveData(inc, rid, at + 1, remaining - |bytes|))
  }

  lemma {:induction false} ReceiveDataBounds(inc: Incoming, rid: U32, at: nat, remaining: nat)
    requires at <= |inc.frames|
    ensures var d := ReceiveData(inc, rid, at, remaining);
            d.Received? ==> at <= d.next <= |inc.frames| && |d.data| == remaining
    decreases |inc.frames| - at
  {
    if remaining != 0 && ContentAt(inc, rid, at, remaining).Ok? {
      ReceiveDataBounds(inc, rid, at + 1, remaining - |inc.frames[at].payload|);
    }
  }

  function ResolveEntry(rootPaths: seq<Path>, e: TransferEntry): Result<Path, TransferError> {
    if e.rootIndex >= |rootPaths| then Err(InBatchManifest(InvalidRootIndex(e.rootIndex)))
    else
      var components := Components(e.relativePath);
      if forall i | 0 <= i < |components| :: components[i].Normal? then
        Ok(rootPaths[e.rootIndex] + NormalParts(components))
      else Err(BadPath(InvalidTransferPath(e.relativePath)))
  }

  datatype EntriesOutcome = Unpacked(fs: FS, next: nat, bytes: nat) | Aborted(fs: FS, error: TransferError)

  /** One entry: a directory is made, a file is filled from the stream. */
  function ReceiveEntry(fs: FS, side: Side, umask: Mode, rootPaths: seq<Path>, e: TransferEntry,
                        inc: Incoming, rid: U32, at: nat): (r: EntriesOutcome)
    requires at <= |inc.frames|
    ensures r.Unpacked? ==> at <= r.next <= |inc.frames|
  {
    match ResolveEntry(rootPaths, e)
    case Err(error) => Aborted(fs, error)
    case Ok(p) =>
      match e.kind
      case DirectoryEntry =>
        (match ApplyItem(fs, side, umask, Item(p, DirectoryEntry, e.mode, []))
         case Err(error) => Aborted(fs, OnDisk(error))
         case Ok(made) => Unpacked(made, at, 0))
      case FileEntry =>
        var (ready, opening) := OpenOutput(fs, umask, p, e.mode);
        if opening.Err? then Aborted(ready, OnDisk(opening.error))
        else
          ReceiveDataBounds(inc, rid, at, e.size);
          match ReceiveData(inc, rid, at, e.size)
          case Broken(data, error) => Aborted(Append(ready, p, data), error)
          case Received(data, next) =>
            Unpacked(FinishMode(Append(ready, p, data), p, e.mode, FinalFileMode(side, e.mode)), next, |data|)
  }

  function AddBytes(n: nat, later: EntriesOutcome): EntriesOutcome {
    if later.Unpacked? then later.(bytes := n + later.bytes) else later
  }

  function ReceiveEntries(fs: FS, side: Side, umask: Mode, rootPaths: seq<Path>, entries: seq<TransferEntry>,
                          inc: Incoming, rid: U32, at: nat): (r: EntriesOutcome)
    requires at <= |inc.frames|
    ensures r.Unpacked? ==> at <= r.next <= |inc.frames|
    decreases |entries|
  {
    if entries == [] then Unpacked(fs, at, 0)
    else
      match ReceiveEntry(fs, side, umask, rootPaths, entries[0], inc, rid, at)
      case Aborted(after, error) => Aborted(after, error)
      case Unpacked(after, next, bytes) =>
        AddBytes(bytes, ReceiveEntries(after, side, umask, rootPaths, entries[1..], inc, rid, next))
  }

  datatype BatchOutcome = Completed(fs: FS, next: nat, entries: nat, bytes: nat) | Failed(fs: FS, error: TransferError)

  /** The single empty EOF frame that ends the file data. */
  function EofAt(inc: Incoming, rid: U32, at: nat): Result<(), TransferError>
    requires at <= |inc.frames|
  {
    if at == |inc.frames| then Err(OnWire(inc.error))
    else
      var eof :- Chunk(inc.frames[at], rid);
      if !eof || inc.frames[at].payload != [] then Err(ExpectedEof) else Ok(())
  }

  /** A chunk of this request: a stream frame with its id, channel number 1, and bit 31 of the flags for EOF. */
  lemma ChunkExact(f: Frame, rid: U32, eof: bool)
    ensures Chunk(f, rid) == Ok(eof) <==>
            f.header.kind == FrameKind.Stream && f.header.requestId == rid && f.header.flags % 256 == 1 &&
            (eof <==> f.header.flags >= 0x8000_0000)
  {
    hide BitAnd;
    if f.header.kind == FrameKind.Stream {
      StreamFlagBits(f.header);
    }
  }

  /** The batch ends with one chunk that carries the EOF bit and no payload. */
  lemma EofExact(inc: Incoming, rid: U32, at: nat)
    requires at <= |inc.frames|
    ensures EofAt(inc, rid, at).Ok? <==>
            at < |inc.frames| && inc.frames[at].payload == [] &&
            inc.frames[at].header.kind == FrameKind.Stream && inc.frames[at].header.requestId == rid &&
            inc.frames[at].header.flags % 256 == 1 && inc.frames[at].header.flags >= 0x8000_0000
  {
    hide Chunk;
    if at < |inc.frames| {
      ChunkExact(inc.frames[at], rid, true);
    }
  }

  function ReceiveBatch(fs: FS, side: Side, umask: Mode, rootPaths: seq<Path>, entries: seq<TransferEntry>,
                        inc: Incoming, rid: U32): (r: BatchOutcome)
    ensures r.Completed? ==> r.next <= |inc.frames|
  {
    match ReceiveEntries(fs, side, umask, rootPaths, entries, inc, rid, 0)
    case Aborted(after, error) => Failed(after, error)
    case Unpacked(after, next, bytes) =>
      match EofAt(inc, rid, next)
      case Err(error) => Failed(after, error)
      case Ok(_) => Completed(after, next + 1, |entries|, bytes)
  }

  // ---------------------------------------------------------------------
  // The receiving loops
  // ---------------------------------------------------------------------

  /** read_file_stream_chunk_into */
  method ReadFileChunk(stream: Reader, rid: U32, payload: Buffer, ghost start: seq<Byte>, ghost at: nat)
    returns (r: Result<bool, TransferError>)
    requires at <= |ReadAll(start).frames| && stream.input == AfterFrames(start, at)
    modifies stream, payload
    ensures at == |ReadAll(start).frames| ==> r == Err(OnWire(ReadAll(start).error))
    ensures at < |ReadAll(start).frames| ==>
              r == Chunk(ReadAll(start).frames[at], rid) &&
              payload.bytes == ReadAll(start).frames[at].payload && stream.input == AfterFrames(start, at + 1)
  {
    AfterFramesNext(start, at);
    hide ReadFrame, ReadAll;
    var header := ReadFrameInto(stream, payload);
    if header.Err? {
      return Err(OnWire(header.error));
    }
    var decoded := DecodeStreamHeader(header.value);
    if decoded.Err? {
      return Err(OnWire(decoded.error));
    }
    if decoded.value.requestId != rid {
      return Err(WrongRequest(decoded.value.requestId));
    }
    if decoded.value.channel != StreamChannel.File {
      return Err(WrongChannel(decoded.value.channel));
    }
    r := Ok(decoded.value.eof);
  }

  lemma AppendNothing(fs: FS, p: Path)
    requires IsFile(fs, p)
    ensures Append(fs, p, []) == fs
  {
    assert fs[p].data + [] == fs[p].data;
  }

  lemma AppendTwice(fs: FS, p: Path, a: seq<Byte>, b: seq<Byte>)
    requires IsFile(fs, p)
    ensures IsFile(Append(fs, p, a), p)
    ensures Append(Append(fs, p, a), p, b) == Append(fs, p, a + b)
  {
    assert fs[p].data + a + b == fs[p].data + (a + b);
  }

  lemma PrependTwice(a: seq<Byte>, b: seq<Byte>, d: DataOutcome)
    ensures Prepend(a, Prepend(b, d)) == Prepend(a + b, d)
  {
    assert a + (b + d.data) == a + b + d.data;
  }

  /** One step of filling a file: the next chunk must be content and fit. */
  method ReadContent(stream: Reader, rid: U32, remaining: nat, payload: Buffer, ghost start: seq<Byte>, ghost at: nat)
    returns (r: Result<(), TransferError>)
    requires at <= |ReadAll(start).frames| && stream.input == AfterFrames(start, at)
    modifies stream, payload
    ensures match ContentAt(ReadAll(start), rid, at, remaining)
            case Err(e) => r == Err(e)
            case Ok(bytes) => r == Ok(()) && payload.bytes == bytes && stream.input == AfterFrames(start, at + 1)
  {
    hide ReadAll, AfterFrames, Chunk;
    var chunk := ReadFileChunk(stream, rid, payload, start, at);
    if chunk.Err? {
      return Err(chunk.error);
    }
    if chunk.value {
      return Err(EndedEarly);
    }
    if |payload.bytes| > remaining {
      return Err(Overran);
    }
    r := Ok(());
  }

  /** The `while remaining > 0` loop filling one open file. */
  method FillFile(disk: Disk, stream: Reader, p: Path, size: nat, rid: U32, payload: Buffer,
                  ghost start: seq<Byte>, ghost at: nat) returns (r: Result<nat, TransferError>, ghost next: nat)
    requires IsFile(disk.fs, p)
    requires at <= |ReadAll(start).frames| && stream.input == AfterFrames(start, at)
    modifies disk, stream, payload
    ensures FileEnds(ReceiveData(ReadAll(start), rid, at, size), start, old(disk.fs), p,
                     disk.fs, stream.input, r, next)
  {
    hide *;
    ghost var inc := ReadAll(start);
    ghost var fs0, got: seq<Byte> := disk.fs, [];
    next := at;
    var remaining: nat, written: nat := size, 0;
    FillingStarts(inc, rid, at, size, fs0, p);
    while remaining > 0
      invariant at <= next <= |inc.frames| && stream.input == AfterFrames(start, next)
      invariant Filling(inc, rid, at, size, fs0, p, got, next, remaining, disk.fs)
      invariant |got| == written
      decreases |inc.frames| - next
    {
      FillingGoesOn(inc, rid, at, size, fs0, p, got, next, remaining, disk.fs);
      ghost var content := ContentAt(inc, rid, next, remaining);
      var step := FillStep(disk, stream, p, remaining, rid, payload, start, next);
      if step.Err? {
        FileBreaks(got, step.error, start, fs0, p, stream.input, next);
        return Err(step.error), next;
      }
      remaining := remaining - step.value;
      written := written + step.value;
      got := got + content.value;
      next := next + 1;
    }
    FillingEnds(inc, rid, at, size, fs0, p, got, next, disk.fs);
    FileFills(got, start, fs0, p, next);
    r := Ok(written);
  }

  /** Reads one chunk and writes what it holds; an empty chunk changes nothing. */
  method FillStep(disk: Disk, stream: Reader, p: Path, remaining: nat, rid: U32, payload: Buffer,
                  ghost start: seq<Byte>, ghost at: nat) returns (r: Result<nat, TransferError>)
    requires IsFile(disk.fs, p)
    requires at <= |ReadAll(start).frames| && stream.input == AfterFrames(start, at)
    modifies disk, stream, payload
    ensures match ContentAt(ReadAll(start), rid, at, remaining)
            case Err(e) => r == Err(e) && disk.fs == old(disk.fs)
            case Ok(bytes) =>
              r == Ok(|bytes|) && disk.fs == Append(old(disk.fs), p, bytes) && stream.input == AfterFrames(start, at + 1)
  {
    hide ReadAll, AfterFrames, ContentAt;
    var content := ReadContent(stream, rid, remaining, payload, start, at);
    if content.Err? {
      return Err(content.error);
    }
    if |payload.bytes| != 0 {
      disk.WriteAll(p, payload.bytes);
    } else {
      AppendNothing(disk.fs, p);
    }
    r := Ok(|payload.bytes|);
  }

  /** Part of a file is written, and reading the rest completes it. */
  ghost predicate Filling(inc: Incoming, rid: U32, at: nat, size: nat, before: FS, p: Path,
                          got: seq<Byte>, next: nat, remaining: nat, fs: FS)
    requires at <= |inc.frames| && next <= |inc.frames|
  {
    IsFile(before, p) && IsFile(fs, p) && fs == Append(before, p, got) &&
    ReceiveData(inc, rid, at, size) == Prepend(got, ReceiveData(inc, rid, next, remaining))
  }

  lemma FillingStarts(inc: Incoming, rid: U32, at: nat, size: nat, before: FS, p: Path)
    requires at <= |inc.frames| && IsFile(before, p)
    ensures Filling(inc, rid, at, size, before, p, [], at, size, before)
  {
    AppendNothing(before, p);
    PrependNothing(ReceiveData(inc, rid, at, size));
  }

  lemma FillingGoesOn(inc: Incoming, rid: U32, at: nat, size: nat, before: FS, p: Path,
                      got: seq<Byte>, next: nat, remaining: nat, fs: FS)
    requires at <= |inc.frames| && next <= |inc.frames| && remaining > 0
    requires Filling(inc, rid, at, size, before, p, got, next, remaining, fs)
    ensures IsFile(before, p) && IsFile(fs, p) && fs == Append(before, p, got)
    ensures match ContentAt(inc, rid, next, remaining)
            case Err(e) => ReceiveData(inc, rid, at, size) == Prepend(got, Broken([], e))
            case Ok(bytes) =>
              Filling(inc, rid, at, size, before, p, got + bytes, next + 1, remaining - |bytes|, Append(fs, p, bytes))
  {
    hide ContentAt;
    match ContentAt(inc, rid, next, remaining)
    case Err(e) =>
    case Ok(bytes) =>
      AppendTwice(before, p, got, bytes);
      PrependTwice(got, bytes, ReceiveData(inc, rid, next + 1, remaining - |bytes|));
  }

  lemma FillingEnds(inc: Incoming, rid: U32, at: nat, size: nat, before: FS, p: Path,
                    got: seq<Byte>, next: nat, fs: FS)
    requires at <= |inc.frames| && next <= |inc.frames|
    requires Filling(inc, rid, at, size, before, p, got, next, 0, fs)
    ensures IsFile(before, p) && fs == Append(before, p, got)
    ensures ReceiveData(inc, rid, at, size) == Prepend(got, Received([], next))
  {
  }

  /** The state and result that the outcome of one file's data stands for. */
  ghost predicate FileEnds(outcome: DataOutcome, start: seq<Byte>, before: FS, p: Path,
                           fs: FS, input: seq<Byte>, r: Result<nat, TransferError>, next: nat)
  {
    IsFile(before, p) && fs == Append(before, p, outcome.data) &&
    match outcome
    case Received(data, end) =>
      r == Ok(|data|) && next == end <= |ReadAll(start).frames| && input == AfterFrames(start, end)
    case Broken(_, error) => r == Err(error)
  }

  lemma FileBreaks(got: seq<Byte>, error: TransferError, start: seq<Byte>, before: FS, p: Path,
                   input: seq<Byte>, next: nat)
    requires IsFile(before, p)
    ensures FileEnds(Prepend(got, Broken([], error)), start, before, p, Append(before, p, got), input, Err(error), next)
  {
    assert got + [] == got;
  }

  lemma FileFills(got: seq<Byte>, start: seq<Byte>, before: FS, p: Path, next: nat)
    requires IsFile(before, p) && next <= |ReadAll(start).frames|
    ensures FileEnds(Prepend(got, Received([], next)), start, before, p, Append(before, p, got),
                     AfterFrames(start, next), Ok(|got|), next)
  {
    assert got + [] == got;
  }

  lemma PrependNothing(d: DataOutcome)
    ensures Prepend([], d) == d
  {
    assert [] + d.data == d.data;
  }

  method ReceiveOneEntry(disk: Disk, stream: Reader, side: Side, rootPaths: seq<Path>, e: TransferEntry, rid: U32,
                         payload: Buffer, ghost start: seq<Byte>, ghost at: nat)
    returns (r: Result<nat, TransferError>, ghost next: nat)
    requires at <= |ReadAll(start).frames| && stream.input == AfterFrames(start, at)
    modifies disk, stream, payload
    ensures match ReceiveEntry(old(disk.fs), side, disk.umask, rootPaths, e, ReadAll(start), rid, at)
            case Unpacked(fs, end, bytes) =>
              r == Ok(bytes) && disk.fs == fs && next == end && stream.input == AfterFrames(start, end)
            case Aborted(fs, error) => r == Err(error) && disk.fs == fs
  {
    next := at;
    var joined := ResolveEntry(rootPaths, e);
    if joined.Err? {
      return Err(joined.error), next;
    }
    var outputPath := joined.value;
    hide ReadAll, AfterFrames, ResolveEntry, ReceiveData;
    match e.kind {
      case DirectoryEntry =>
        var made := disk.CreateDirAll(outputPath);
        if made.Err? {
          return Err(OnDisk(made.error)), next;
        }
        MkdirAllPresent(old(disk.fs), outputPath, disk.umask);
        if e.mode != 0 {
          disk.SetPermissions(outputPath, e.mode % 4096);
        }
        r := Ok(0);
      case FileEntry =>
        if outputPath != [] {
          var made := disk.CreateDirAll(Parent(outputPath));
          if made.Err? {
            return Err(OnDisk(made.error)), next;
          }
        }
        var ready := disk.OpenForWrite(outputPath, NormalizeMode(e.mode));
        if ready.Err? {
          return Err(OnDisk(ready.error)), next;
        }
        r, next := FillFile(disk, stream, outputPath, e.size, rid, payload, start, at);
        if r.Ok? && e.mode != 0 {
          disk.SetPermissions(outputPath, FinalFileMode(side, e.mode));
        }
    }
  }

  lemma EntriesStep(fs: FS, side: Side, umask: Mode, rootPaths: seq<Path>, entries: seq<TransferEntry>, i: nat,
                    inc: Incoming, rid: U32, at: nat)
    requires at <= |inc.frames| && i < |entries|
    ensures ReceiveEntries(fs, side, umask, rootPaths, entries[i..], inc, rid, at) ==
            match ReceiveEntry(fs, side, umask, rootPaths, entries[i], inc, rid, at)
            case Aborted(after, error) => Aborted(after, error)
            case Unpacked(after, next, bytes) =>
              AddBytes(bytes, ReceiveEntries(after, side, umask, rootPaths, entries[i + 1..], inc, rid, next))
  {
    hide ReceiveEntry;
    assert entries[i..][1..] == entries[i + 1..];
  }

  /** The loop over the manifest's entries. */
  method ReceiveEntriesInto(disk: Disk, stream: Reader, side: Side, rootPaths: seq<Path>, entries: seq<TransferEntry>,
                            rid: U32, payload: Buffer, ghost start: seq<Byte>)
    returns (r: Result<(nat, nat), TransferError>, ghost at: nat)
    requires stream.input == start
    modifies disk, stream, payload
    ensures match ReceiveEntries(old(disk.fs), side, disk.umask, rootPaths, entries, ReadAll(start), rid, 0)
            case Unpacked(fs, next, bytes) =>
              r == Ok((|entries|, bytes)) && disk.fs == fs && at == next && stream.input == AfterFrames(start, at)
            case Aborted(fs, error) => r == Err(error) && disk.fs == fs
  {
    ghost var inc := ReadAll(start);
    at := 0;
    var entriesDone: nat, bytesDone: nat := 0, 0;
    ghost var whole := ReceiveEntries(disk.fs, side, disk.umask, rootPaths, entries, inc, rid, 0);
    assert entries[0..] == entries;
    assert stream.input == AfterFrames(start, 0);
    assert whole == AddBytes(0, whole);
    hide *;
    for i := 0 to |entries|
      invariant at <= |inc.frames| && stream.input == AfterFrames(start, at)
      invariant entriesDone == i
      invariant whole ==
                AddBytes(bytesDone, ReceiveEntries(disk.fs, side, disk.umask, rootPaths, entries[i..], inc, rid, at))
    {
      EntriesStep(disk.fs, side, disk.umask, rootPaths, entries, i, inc, rid, at);
      var one;
      one, at := ReceiveOneEntry(disk, stream, side, rootPaths, entries[i], rid, payload, start, at);
      if one.Err? {
        AddToAborted(bytesDone, disk.fs, one.error);
        return Err(one.error), at;
      }
      AddTwice(bytesDone, one.value,
               ReceiveEntries(disk.fs, side, disk.umask, rootPaths, entries[i + 1..], inc, rid, at));
      entriesDone := entriesDone + 1;
      bytesDone := bytesDone + one.value;
    }
    NoMoreEntries(disk.fs, side, disk.umask, rootPaths, entries, inc, rid, at);
    AddToUnpacked(bytesDone, disk.fs, at);
    r := Ok((entriesDone, bytesDone));
  }

  lemma AddTwice(a: nat, b: nat, later: EntriesOutcome)
    ensures AddBytes(a, AddBytes(b, later)) == AddBytes(a + b, later)
  {
  }

  lemma AddToAborted(a: nat, fs: FS, error: TransferError)
    ensures AddBytes(a, Aborted(fs, error)) == Aborted(fs, error)
  {
  }

  lemma AddToUnpacked(a: nat, fs: FS, next: nat)
    ensures AddBytes(a, Unpacked(fs, next, 0)) == Unpacked(fs, next, a)
  {
  }

  lemma NoMoreEntries(fs: FS, side: Side, umask: Mode, rootPaths: seq<Path>, entries: seq<TransferEntry>,
                      inc: Incoming, rid: U32, at: nat)
    requires at <= |inc.frames|
    ensures ReceiveEntries(fs, side, umask, rootPaths, entries[|entries|..], inc, rid, at) == Unpacked(fs, at, 0)
  {
  }

  /** expect_file_stream_eof */
  method ExpectFileStreamEof(stream: Reader, rid: U32, payload: Buffer, ghost start: seq<Byte>, ghost at: nat)
    returns (r: Result<(), TransferError>)
    requires at <= |ReadAll(start).frames| && stream.input == AfterFrames(start, at)
    modifies stream, payload
    ensures r == EofAt(ReadAll(start), rid, at)
    ensures r.Ok? ==> at < |ReadAll(start).frames| && stream.input == AfterFrames(start, at + 1)
  {
    hide ReadAll, AfterFrames, Chunk;
    var last := ReadFileChunk(stream, rid, payload, start, at);
    if last.Err? {
      return Err(last.error);
    }
    if !last.value || payload.bytes != [] {
      return Err(ExpectedEof);
    }
    r := Ok(());
  }

  /** The state and result that an outcome stands for. */
  ghost predicate BatchEnds(outcome: BatchOutcome, start: seq<Byte>, fs: FS, input: seq<Byte>,
                            r: Result<(nat, nat), TransferError>)
  {
    match outcome
    case Completed(after, next, n, bytes) =>
      r == Ok((n, bytes)) && fs == after && next <= |ReadAll(start).frames| && input == AfterFrames(start, next)
    case Failed(after, error) => r == Err(error) && fs == after
  }

  lemma BatchFails(start: seq<Byte>, fs: FS, input: seq<Byte>, error: TransferError)
    ensures BatchEnds(Failed(fs, error), start, fs, input, Err(error))
  {
  }

  lemma BatchCompletes(start: seq<Byte>, fs: FS, next: nat, n: nat, bytes: nat)
    requires next <= |ReadAll(start).frames|
    ensures BatchEnds(Completed(fs, next, n, bytes), start, fs, AfterFrames(start, next), Ok((n, bytes)))
  {
  }

  lemma BatchStages(fs: FS, side: Side, umask: Mode, rootPaths: seq<Path>, entries: seq<TransferEntry>,
                    inc: Incoming, rid: U32)
    ensures ReceiveBatch(fs, side, umask, rootPaths, entries, inc, rid) ==
            match ReceiveEntries(fs, side, umask, rootPaths, entries, inc, rid, 0)
            case Aborted(after, error) => Failed(after, error)
            case Unpacked(after, next, bytes) =>
              match EofAt(inc, rid, next)
              case Err(error) => Failed(after, error)
              case Ok(_) => Completed(after, next + 1, |entries|, bytes)
  {
  }

  /** The entry loop and the closing EOF frame, shared by the daemon's push and the client's pull. */
  method ReceiveBatchInto(disk: Disk, stream: Reader, side: Side, rootPaths: seq<Path>, entries: seq<TransferEntry>,
                          rid: U32) returns (r: Result<(nat, nat), TransferError>)
    modifies disk, stream
    ensures BatchEnds(ReceiveBatch(old(disk.fs), side, disk.umask, rootPaths, entries, ReadAll(old(stream.input)), rid),
                      old(stream.input), disk.fs, stream.input, r)
  {
    ghost var start := stream.input;
    BatchStages(disk.fs, side, disk.umask, rootPaths, entries, ReadAll(start), rid);
    hide *;
    var payload := new Buffer();
    ghost var at;
    r, at := ReceiveEntriesInto(disk, stream, side, rootPaths, entries, rid, payload, start);
    if r.Err? {
      BatchFails(start, disk.fs, stream.input, r.error);
      return;
    }
    var last := ExpectFileStreamEof(stream, rid, payload, start, at);
    if last.Err? {
      BatchFails(start, disk.fs, stream.input, last.error);
      return Err(last.error);
    }
    BatchCompletes(start, disk.fs, at + 1, r.value.0, r.value.1);
  }
}
