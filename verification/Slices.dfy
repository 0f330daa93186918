/**
 What the receiving loop computes, stated without the loop: which incoming
 frames it accepts, which slice of the payload each file gets, and what the
 file system then holds.
 */
module Slices {
  import opened Base
  import opened Frames
  import opened Paths
  import opened Trees
  import opened FileSystem
  import opened Manifest
  import opened Overlay
  import opened Receiver

  /** The payloads of frames a..b, joined. */
  function Payload(frames: seq<Frame>, a: nat, b: nat): seq<Byte>
    requires b <= |frames|
    decreases b - a
  {
    if a >= b then [] else frames[a].payload + Payload(frames, a + 1, b)
  }

  /** Frames a..b are non-EOF file chunks of exactly `size` bytes, the last of them not empty. */
  ghost predicate Segment(frames: seq<Frame>, rid: U32, a: nat, b: nat, size: nat) {
    a <= b <= |frames| &&
    (forall k | a <= k < b :: Chunk(frames[k], rid) == Ok(false)) &&
    |Payload(frames, a, b)| == size &&
    (size == 0 ==> a == b) &&
    (size > 0 ==> a < b && frames[b - 1].payload != [])
  }

  lemma {:induction false} PayloadHasLast(frames: seq<Frame>, a: nat, b: nat)
    requires a < b <= |frames|
    ensures |Payload(frames, a, b)| >= |frames[b - 1].payload|
    decreases b - a
  {
    if a + 1 < b {
      PayloadHasLast(frames, a + 1, b);
    }
  }

  /** One file's data: accepted exactly when the frames form a segment of its size, and then it is their payload. */
  lemma {:induction false} DataIsSegment(inc: Incoming, rid: U32, at: nat, size: nat, data: seq<Byte>, next: nat)
    requires at <= |inc.frames|
    ensures ReceiveData(inc, rid, at, size) == Received(data, next) <==>
            Segment(inc.frames, rid, at, next, size) && data == Payload(inc.frames, at, next)
    decreases |inc.frames| - at
  {
    hide Chunk;
    if size > 0 && ContentAt(inc, rid, at, size).Ok? {
      var f := inc.frames[at].payload;
      var later := ReceiveData(inc, rid, at + 1, size - |f|);
      hide ReceiveData;
      if ReceiveData(inc, rid, at, size) == Received(data, next) {
        DataIsSegment(inc, rid, at + 1, size - |f|, later.data, next);
      }
      if Segment(inc.frames, rid, at, next, size) {
        if size == |f| && at + 1 < next {
          PayloadHasLast(inc.frames, at + 1, next);
        }
        DataIsSegment(inc, rid, at + 1, size - |f|, Payload(inc.frames, at + 1, next), next);
      }
    }
  }

  // ---------------------------------------------------------------------
  // All the files
  // ---------------------------------------------------------------------

  datatype ContentsOutcome = AllRead(contents: seq<seq<Byte>>, next: nat) | ReadFailed(error: TransferError)

  /** Reads one file after the other, without a file system. */
  function ReceiveContents(inc: Incoming, rid: U32, at: nat, sizes: seq<nat>): (r: ContentsOutcome)
    requires at <= |inc.frames|
    ensures r.AllRead? ==> at <= r.next <= |inc.frames| && |r.contents| == |sizes|
    decreases |sizes|
  {
    if sizes == [] then AllRead([], at)
    else
      ReceiveDataBounds(inc, rid, at, sizes[0]);
      match ReceiveData(inc, rid, at, sizes[0])
      case Broken(_, error) => ReadFailed(error)
      case Received(data, next) =>
        match ReceiveContents(inc, rid, next, sizes[1..])
        case ReadFailed(error) => ReadFailed(error)
        case AllRead(contents, end) => AllRead([data] + contents, end)
  }

  ghost predicate IsPayload(frames: seq<Frame>, a: nat, b: nat, data: seq<Byte>) {
    a <= b <= |frames| && data == Payload(frames, a, b)
  }

  /** Where each file's frames begin and end. */
  ghost predicate Cuts(frames: seq<Frame>, rid: U32, at: nat, sizes: seq<nat>, cuts: seq<nat>) {
    |cuts| == |sizes| + 1 && cuts[0] == at &&
    forall i | 0 <= i < |sizes| :: Segment(frames, rid, cuts[i], cuts[i + 1], sizes[i])
  }

  /** Frames that split into one segment a file are all read, each file getting its segment. */
  lemma {:induction false} CutsAreRead(inc: Incoming, rid: U32, at: nat, sizes: seq<nat>, cuts: seq<nat>)
    requires at <= |inc.frames| && Cuts(inc.frames, rid, at, sizes, cuts)
    ensures var r := ReceiveContents(inc, rid, at, sizes);
            r.AllRead? && r.next == cuts[|sizes|] &&
            forall i | 0 <= i < |sizes| ::
              IsPayload(inc.frames, cuts[i], cuts[i + 1], r.contents[i])
    decreases |sizes|
  {
    hide ReceiveData, Payload;
    if sizes != [] {
      assert Segment(inc.frames, rid, cuts[0], cuts[1], sizes[0]);
      DataIsSegment(inc, rid, at, sizes[0], Payload(inc.frames, at, cuts[1]), cuts[1]);
      forall i | 0 <= i < |sizes[1..]|
        ensures Segment(inc.frames, rid, cuts[1..][i], cuts[1..][i + 1], sizes[1..][i])
      {
        assert Segment(inc.frames, rid, cuts[i + 1], cuts[i + 2], sizes[i + 1]);
      }
      CutsAreRead(inc, rid, cuts[1], sizes[1..], cuts[1..]);
      var r, later := ReceiveContents(inc, rid, at, sizes), ReceiveContents(inc, rid, cuts[1], sizes[1..]);
      forall i | 0 <= i < |sizes|
        ensures IsPayload(inc.frames, cuts[i], cuts[i + 1], r.contents[i])
      {
        assert Segment(inc.frames, rid, cuts[i], cuts[i + 1], sizes[i]);
        if i > 0 {
          assert IsPayload(inc.frames, cuts[1..][i - 1], cuts[1..][i], later.contents[i - 1]);
        }
      }
    }
  }

  /** Whatever is read came from frames that split that way. */
  lemma {:induction false} ReadHasCuts(inc: Incoming, rid: U32, at: nat, sizes: seq<nat>) returns (cuts: seq<nat>)
    requires at <= |inc.frames| && ReceiveContents(inc, rid, at, sizes).AllRead?
    ensures Cuts(inc.frames, rid, at, sizes, cuts)
    ensures cuts[|sizes|] == ReceiveContents(inc, rid, at, sizes).next
    decreases |sizes|
  {
    hide ReceiveData, Payload;
    if sizes == [] {
      cuts := [at];
    } else {
      ReceiveDataBounds(inc, rid, at, sizes[0]);
      var first := ReceiveData(inc, rid, at, sizes[0]);
      DataIsSegment(inc, rid, at, sizes[0], first.data, first.next);
      var later := ReadHasCuts(inc, rid, first.next, sizes[1..]);
      cuts := [at] + later;
      forall i | 0 <= i < |sizes|
        ensures Segment(inc.frames, rid, cuts[i], cuts[i + 1], sizes[i])
      {
        if i > 0 {
          assert Segment(inc.frames, rid, later[i - 1], later[i], sizes[1..][i - 1]);
        }
      }
    }
  }

  lemma {:induction false} PayloadSplit(frames: seq<Frame>, a: nat, b: nat, c: nat)
    requires a <= b <= c <= |frames|
    ensures Payload(frames, a, c) == Payload(frames, a, b) + Payload(frames, b, c)
    decreases b - a
  {
    if a < b {
      PayloadSplit(frames, a + 1, b, c);
    } else {
      assert [] + Payload(frames, b, c) == Payload(frames, b, c);
    }
  }

  /** The files are consecutive slices of the whole payload, at the prefix sums of their sizes. */
  lemma {:induction false} ContentsAreSlices(inc: Incoming, rid: U32, at: nat, sizes: seq<nat>, i: nat)
    requires at <= |inc.frames| && i < |sizes|
    requires ReceiveContents(inc, rid, at, sizes).AllRead?
    ensures var r := ReceiveContents(inc, rid, at, sizes);
            var whole := Payload(inc.frames, at, r.next);
            |whole| == Sum(sizes) && Sum(sizes[..i]) + sizes[i] <= |whole| &&
            r.contents[i] == whole[Sum(sizes[..i])..Sum(sizes[..i]) + sizes[i]]
    decreases |sizes|
  {
    hide ReceiveData, Payload, Segment;
    ReceiveDataBounds(inc, rid, at, sizes[0]);
    var first := ReceiveData(inc, rid, at, sizes[0]);
    DataIsSegment(inc, rid, at, sizes[0], first.data, first.next);
    var r := ReceiveContents(inc, rid, at, sizes);
    var later := ReceiveContents(inc, rid, first.next, sizes[1..]);
    PayloadSplit(inc.frames, at, first.next, r.next);
    if sizes[1..] == [] {
      PayloadNone(inc.frames, r.next);
    } else {
      ContentsAreSlices(inc, rid, first.next, sizes[1..], if i == 0 then 0 else i - 1);
    }
    if i > 0 {
      assert sizes[..i][1..] == sizes[1..][..i - 1];
      var whole, rest := Payload(inc.frames, at, r.next), Payload(inc.frames, first.next, r.next);
      var off := Sum(sizes[1..][..i - 1]);
      assert whole[sizes[0] + off..sizes[0] + off + sizes[i]] == rest[off..off + sizes[i]];
    } else {
      assert sizes[..0] == [];
    }
  }

  lemma PayloadNone(frames: seq<Frame>, at: nat)
    requires at <= |frames|
    ensures Payload(frames, at, at) == []
  {
  }

  // ---------------------------------------------------------------------
  // Streams and file system taken apart
  // ---------------------------------------------------------------------

  function FileEntrySizes(entries: seq<TransferEntry>): seq<nat> {
    if entries == [] then []
    else (if entries[0].kind.FileEntry? then [entries[0].size] else []) + FileEntrySizes(entries[1..])
  }

  ghost predicate Resolves(rootPaths: seq<Path>, entries: seq<TransferEntry>) {
    forall i | 0 <= i < |entries| :: ResolveEntry(rootPaths, entries[i]).Ok?
  }

  function ItemOf(rootPaths: seq<Path>, e: TransferEntry, data: seq<Byte>): Item
    requires ResolveEntry(rootPaths, e).Ok?
  {
    Item(ResolveEntry(rootPaths, e).value, e.kind, e.mode, data)
  }

  /** The entries with their paths resolved and the contents dealt out to the files in order. */
  function ItemsOf(rootPaths: seq<Path>, entries: seq<TransferEntry>, contents: seq<seq<Byte>>): (items: seq<Item>)
    requires Resolves(rootPaths, entries) && |contents| == |FileEntrySizes(entries)|
    ensures |items| == |entries|
    decreases |entries|
  {
    if entries == [] then []
    else
      assert ResolveEntry(rootPaths, entries[0]).Ok?;
      RestResolves(rootPaths, entries);
      if entries[0].kind.DirectoryEntry? then
        [ItemOf(rootPaths, entries[0], [])] + ItemsOf(rootPaths, entries[1..], contents)
      else [ItemOf(rootPaths, entries[0], contents[0])] + ItemsOf(rootPaths, entries[1..], contents[1..])
  }

  lemma RestResolves(rootPaths: seq<Path>, entries: seq<TransferEntry>)
    requires Resolves(rootPaths, entries) && entries != []
    ensures Resolves(rootPaths, entries[1..])
  {
    forall i | 0 <= i < |entries[1..]|
      ensures ResolveEntry(rootPaths, entries[1..][i]).Ok?
    {
      assert entries[1..][i] == entries[i + 1];
    }
  }

  /** The interleaved loop succeeds exactly when reading all the contents and then unpacking all the entries does. */
  ghost predicate Factors(fs: FS, side: Side, umask: Mode, rootPaths: seq<Path>, entries: seq<TransferEntry>,
                          inc: Incoming, rid: U32, at: nat)
    requires at <= |inc.frames| && Resolves(rootPaths, entries)
  {
    var r := ReceiveEntries(fs, side, umask, rootPaths, entries, inc, rid, at);
    var c := ReceiveContents(inc, rid, at, FileEntrySizes(entries));
    (r.Unpacked? <==> c.AllRead? && ApplyItems(fs, side, umask, ItemsOf(rootPaths, entries, c.contents)).Ok?) &&
    (r.Unpacked? ==> r.next == c.next && r.bytes == Sum(FileEntrySizes(entries)) &&
                     ApplyItems(fs, side, umask, ItemsOf(rootPaths, entries, c.contents)) == Ok(r.fs))
  }

  lemma {:induction false} ReceiveFactors(fs: FS, side: Side, umask: Mode, rootPaths: seq<Path>,
                                          entries: seq<TransferEntry>, inc: Incoming, rid: U32, at: nat)
    requires at <= |inc.frames| && Resolves(rootPaths, entries)
    ensures Factors(fs, side, umask, rootPaths, entries, inc, rid, at)
    decreases |entries|
  {
    hide ReceiveEntry, ApplyItem, ResolveEntry, ReceiveData;
    if entries != [] {
      hide Factors;
      RestResolves(rootPaths, entries);
      var one := ReceiveEntry(fs, side, umask, rootPaths, entries[0], inc, rid, at);
      if one.Unpacked? {
        ReceiveFactors(one.fs, side, umask, rootPaths, entries[1..], inc, rid, one.next);
      }
      if entries[0].kind.DirectoryEntry? {
        DirectoryFactors(fs, side, umask, rootPaths, entries, inc, rid, at);
      } else {
        FileFactors(fs, side, umask, rootPaths, entries, inc, rid, at);
      }
    }
  }

  lemma DirectoryFactors(fs: FS, side: Side, umask: Mode, rootPaths: seq<Path>, entries: seq<TransferEntry>,
                         inc: Incoming, rid: U32, at: nat)
    requires at <= |inc.frames| && Resolves(rootPaths, entries) && entries != [] && entries[0].kind.DirectoryEntry?
    requires Resolves(rootPaths, entries[1..])
    requires var one := ReceiveEntry(fs, side, umask, rootPaths, entries[0], inc, rid, at);
             one.Unpacked? ==> Factors(one.fs, side, umask, rootPaths, entries[1..], inc, rid, one.next)
    ensures Factors(fs, side, umask, rootPaths, entries, inc, rid, at)
  {
    hide ReceiveEntry, ApplyItem, ResolveEntry, ReceiveData, ReceiveContents;
    OneReceived(fs, side, umask, rootPaths, entries[0], inc, rid, at);
    assert FileEntrySizes(entries) == FileEntrySizes(entries[1..]);
  }

  lemma FileFactors(fs: FS, side: Side, umask: Mode, rootPaths: seq<Path>, entries: seq<TransferEntry>,
                    inc: Incoming, rid: U32, at: nat)
    requires at <= |inc.frames| && Resolves(rootPaths, entries) && entries != [] && entries[0].kind.FileEntry?
    requires Resolves(rootPaths, entries[1..])
    requires var one := ReceiveEntry(fs, side, umask, rootPaths, entries[0], inc, rid, at);
             one.Unpacked? ==> Factors(one.fs, side, umask, rootPaths, entries[1..], inc, rid, one.next)
    ensures Factors(fs, side, umask, rootPaths, entries, inc, rid, at)
  {
    hide ReceiveEntry, ApplyItem, ResolveEntry, ReceiveData;
    var e, sizes := entries[0], FileEntrySizes(entries);
    ReceiveDataBounds(inc, rid, at, e.size);
    OneReceived(fs, side, umask, rootPaths, e, inc, rid, at);
    assert sizes[0] == e.size && sizes[1..] == FileEntrySizes(entries[1..]);
    var c := ReceiveContents(inc, rid, at, sizes);
    if c.AllRead? {
      var d := ReceiveData(inc, rid, at, e.size);
      assert c.contents[1..] == ReceiveContents(inc, rid, d.next, sizes[1..]).contents;
    }
  }

  /** Receiving one entry is reading its content, if it is a file, and applying it. */
  lemma OneReceived(fs: FS, side: Side, umask: Mode, rootPaths: seq<Path>, e: TransferEntry, inc: Incoming, rid: U32, at: nat)
    requires at <= |inc.frames| && ResolveEntry(rootPaths, e).Ok?
    ensures var r, d := ReceiveEntry(fs, side, umask, rootPaths, e, inc, rid, at), ReceiveData(inc, rid, at, e.size);
            match e.kind
            case DirectoryEntry =>
              var made := ApplyItem(fs, side, umask, ItemOf(rootPaths, e, []));
              if made.Ok? then r == Unpacked(made.value, at, 0) else r.Aborted?
            case FileEntry =>
              if d.Received? && ApplyItem(fs, side, umask, ItemOf(rootPaths, e, d.data)).Ok?
              then r == Unpacked(ApplyItem(fs, side, umask, ItemOf(rootPaths, e, d.data)).value, d.next, |d.data|)
              else r.Aborted?
  {
    hide ResolveEntry, ReceiveData, MkdirAll, OpenTruncate, FinishMode, FinalFileMode;
    ReceiveDataBounds(inc, rid, at, e.size);
  }
}
