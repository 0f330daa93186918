/**
 Receiving a well-formed manifest: entries keep to their own paths, and the
 whole receiver is a slice of the payload per file laid over the file system.
 */
module Unpack {
  import opened Base
  import opened Frames
  import opened Paths
  import opened Trees
  import opened FileSystem
  import opened Manifest
  import opened Overlay
  import opened Receiver
  import opened Slices
  import opened Roots

  /** What the receiver relies on in a manifest. */
  ghost predicate GoodEntries(rootPaths: seq<Path>, entries: seq<TransferEntry>) {
    CanonicalTexts(entries) && Increasing(entries) && ParentsFirst(entries) &&
    (forall i | 0 <= i < |entries| :: entries[i].rootIndex < |rootPaths|) && Separate(rootPaths)
  }

  ghost function OutputPath(rootPaths: seq<Path>, e: TransferEntry): Path
    requires e.rootIndex < |rootPaths|
  {
    rootPaths[e.rootIndex] + EntryPath(e)
  }

  lemma GoodEntryResolves(rootPaths: seq<Path>, e: TransferEntry)
    requires e.rootIndex < |rootPaths| && e.relativePath == PathText(EntryPath(e))
    ensures ResolveEntry(rootPaths, e) == Ok(OutputPath(rootPaths, e))
  {
    JoinPathText(rootPaths[e.rootIndex], EntryPath(e));
    JoinPathText([], EntryPath(e));
  }

  lemma GoodEntriesResolve(rootPaths: seq<Path>, entries: seq<TransferEntry>)
    requires GoodEntries(rootPaths, entries)
    ensures Resolves(rootPaths, entries)
  {
    forall i | 0 <= i < |entries|
      ensures ResolveEntry(rootPaths, entries[i]).Ok?
    {
      assert entries[i] in entries;
      GoodEntryResolves(rootPaths, entries[i]);
    }
  }

  lemma {:induction false} ItemsOfShape(rootPaths: seq<Path>, entries: seq<TransferEntry>, contents: seq<seq<Byte>>)
    requires Resolves(rootPaths, entries) && |contents| == |FileEntrySizes(entries)|
    ensures var items := ItemsOf(rootPaths, entries, contents);
            forall i | 0 <= i < |items| ::
              items[i].kind == entries[i].kind && items[i].mode == entries[i].mode &&
              ResolveEntry(rootPaths, entries[i]) == Ok(items[i].path)
    decreases |entries|
  {
    if entries != [] {
      hide ResolveEntry;
      RestResolves(rootPaths, entries);
      assert ResolveEntry(rootPaths, entries[0]).Ok?;
      var directory := entries[0].kind.DirectoryEntry?;
      ItemsOfShape(rootPaths, entries[1..], if directory then contents else contents[1..]);
    }
  }

  /** Different entries of a well-formed manifest go to different paths, whatever the roots. */
  lemma OutputPathsDiffer(rootPaths: seq<Path>, entries: seq<TransferEntry>, i: nat, j: nat)
    requires GoodEntries(rootPaths, entries) && i < j < |entries|
    ensures OutputPath(rootPaths, entries[i]) != OutputPath(rootPaths, entries[j])
  {
    var a, b := entries[i], entries[j];
    assert EntryBefore(a, b);
    if a.rootIndex == b.rootIndex {
      PathOrderAsymmetric(EntryPath(a), EntryPath(b));
      var base := rootPaths[a.rootIndex];
      assert (base + EntryPath(a))[|base|..] == EntryPath(a) && (base + EntryPath(b))[|base|..] == EntryPath(b);
    } else if OutputPath(rootPaths, a) == OutputPath(rootPaths, b) {
      PrefixesCompare(rootPaths[a.rootIndex], rootPaths[b.rootIndex], OutputPath(rootPaths, a));
    }
  }

  lemma PrefixesCompare(p: Path, q: Path, whole: Path)
    requires p <= whole && q <= whole
    ensures p <= q || q <= p
  {
    assert p == whole[..|p|] && q == whole[..|q|];
  }

  /** What holds another entry's path is an earlier directory entry of the same root. */
  lemma OutputPathAbove(rootPaths: seq<Path>, entries: seq<TransferEntry>, i: nat, j: nat)
    requires GoodEntries(rootPaths, entries) && i < |entries| && j < |entries|
    requires OutputPath(rootPaths, entries[i]) < OutputPath(rootPaths, entries[j])
    ensures i < j && entries[i].kind.DirectoryEntry?
  {
    hide TextPath, PathText, PathLess;
    var a, b := entries[i], entries[j];
    if a.rootIndex != b.rootIndex {
      PrefixesCompare(rootPaths[a.rootIndex], rootPaths[b.rootIndex], OutputPath(rootPaths, b));
    } else {
      SameBase(rootPaths[a.rootIndex], EntryPath(a), EntryPath(b));
      PrefixEarlier(entries, i, j);
      AncestorIsDirectory(entries, i, j);
    }
  }

  lemma SameBase(base: Path, p: Path, q: Path)
    requires base + p < base + q
    ensures p < q
  {
    assert (base + p)[|base|..] == p && (base + q)[|base|..] == q;
    assert base + p == (base + q)[..|base| + |p|];
    assert p == q[..|p|];
  }

  lemma PrefixEarlier(entries: seq<TransferEntry>, i: nat, j: nat)
    requires Increasing(entries) && i < |entries| && j < |entries|
    requires entries[i].rootIndex == entries[j].rootIndex && EntryPath(entries[i]) < EntryPath(entries[j])
    ensures i < j
  {
    hide TextPath, PathLess;
    if j < i {
      assert EntryBefore(entries[j], entries[i]);
    }
    PrefixFirst(EntryPath(entries[i]), EntryPath(entries[j]));
    PathOrderAsymmetric(EntryPath(entries[i]), EntryPath(entries[j]));
  }

  lemma {:induction false} AncestorIsDirectory(entries: seq<TransferEntry>, i: nat, j: nat)
    requires Increasing(entries) && ParentsFirst(entries)
    requires i < |entries| && j < |entries| && entries[i].rootIndex == entries[j].rootIndex
    requires EntryPath(entries[i]) < EntryPath(entries[j])
    ensures entries[i].kind.DirectoryEntry?
    decreases |EntryPath(entries[j])|
  {
    hide TextPath, PathLess;
    var p, q := EntryPath(entries[i]), EntryPath(entries[j]);
    var d :| 0 <= d < j && IsParentOf(entries[d], entries[j]);
    var above := EntryPath(entries[d]);
    assert above == q[..|q| - 1];
    if p == above {
      SameEntry(entries, i, d);
    } else {
      assert p == q[..|p|] == above[..|p|];
      AncestorIsDirectory(entries, i, d);
    }
  }

  lemma SameEntry(entries: seq<TransferEntry>, i: nat, j: nat)
    requires Increasing(entries) && i < |entries| && j < |entries|
    requires entries[i].rootIndex == entries[j].rootIndex && EntryPath(entries[i]) == EntryPath(entries[j])
    ensures i == j
  {
    hide PathLess, TextPath;
    if i < j {
      assert EntryBefore(entries[i], entries[j]);
    } else if j < i {
      assert EntryBefore(entries[j], entries[i]);
    }
    PathOrderAsymmetric(EntryPath(entries[i]), EntryPath(entries[j]));
  }

  lemma GoodItemsWellOrdered(rootPaths: seq<Path>, entries: seq<TransferEntry>, contents: seq<seq<Byte>>)
    requires GoodEntries(rootPaths, entries)
    requires Resolves(rootPaths, entries) && |contents| == |FileEntrySizes(entries)|
    ensures WellOrdered(ItemsOf(rootPaths, entries, contents))
  {
    var items := ItemsOf(rootPaths, entries, contents);
    ItemsOfShape(rootPaths, entries, contents);
    hide ItemsOf;
    forall i | 0 <= i < |items|
      ensures items[i].path == OutputPath(rootPaths, entries[i])
    {
      assert entries[i] in entries;
      GoodEntryResolves(rootPaths, entries[i]);
    }
    hide ResolveEntry, OutputPath;
    forall i, j | 0 <= i < j < |items|
      ensures items[i].path != items[j].path
    {
      OutputPathsDiffer(rootPaths, entries, i, j);
    }
    forall i, j | 0 <= i < |items| && 0 <= j < |items| && items[i].path < items[j].path
      ensures i < j && items[i].kind.DirectoryEntry?
    {
      OutputPathAbove(rootPaths, entries, i, j);
    }
  }

  /** The items that a successful read of the stream yields. */
  ghost function ReadItems(rootPaths: seq<Path>, entries: seq<TransferEntry>, inc: Incoming, rid: U32): seq<Item>
    requires Resolves(rootPaths, entries) && ReceiveContents(inc, rid, 0, FileEntrySizes(entries)).AllRead?
  {
    ItemsOf(rootPaths, entries, ReceiveContents(inc, rid, 0, FileEntrySizes(entries)).contents)
  }

  /**
   The receiver on any incoming stream: it completes exactly when the frames split into the files' segments
   followed by one empty EOF frame and nothing on disk is in the way; then every path holds what the overlay
   of the entries with those contents says.
   */
  lemma ReceiverRefinement(fs: FS, side: Side, umask: Mode, rootPaths: seq<Path>, entries: seq<TransferEntry>,
                           inc: Incoming, rid: U32)
    requires WellFormed(fs) && GoodEntries(rootPaths, entries)
    ensures Resolves(rootPaths, entries)
    ensures var r := ReceiveBatch(fs, side, umask, rootPaths, entries, inc, rid);
            var c := ReceiveContents(inc, rid, 0, FileEntrySizes(entries));
            (r.Completed? <==> c.AllRead? && EofAt(inc, rid, c.next).Ok? &&
                               Compatible(fs, ReadItems(rootPaths, entries, inc, rid))) &&
            (r.Completed? ==>
               r.entries == |entries| && r.bytes == Sum(FileEntrySizes(entries)) && r.next == c.next + 1 &&
               WellFormed(r.fs) && WellOrdered(ReadItems(rootPaths, entries, inc, rid)) &&
               forall q :: Get(r.fs, q) == OverlayAt(fs, side, umask, ReadItems(rootPaths, entries, inc, rid), q))
  {
    GoodEntriesResolve(rootPaths, entries);
    ReceiveFactors(fs, side, umask, rootPaths, entries, inc, rid, 0);
    var c := ReceiveContents(inc, rid, 0, FileEntrySizes(entries));
    if c.AllRead? {
      var items := ReadItems(rootPaths, entries, inc, rid);
      GoodItemsWellOrdered(rootPaths, entries, c.contents);
      ApplyItemsSucceeds(fs, side, umask, items);
      var r := ReceiveBatch(fs, side, umask, rootPaths, entries, inc, rid);
      hide ApplyItems, ReceiveContents, ReceiveEntries, Compatible, WellFormed, WellOrdered, GoodEntries, Resolves, OverlayAt;
      if r.Completed? {
        assert ApplyItems(fs, side, umask, items) == Ok(r.fs);
        forall q
          ensures Get(r.fs, q) == OverlayAt(fs, side, umask, items, q)
        {
          ApplyItemsOverlay(fs, side, umask, items, q);
        }
      }
    }
  }

  // ---------------------------------------------------------------------
  // Success or not, nothing outside the roots is written
  // ---------------------------------------------------------------------

  /** `after` differs from `fs` only at or below the roots, and by new directories on the way to them. */
  ghost predicate OnlyRootsTouched(fs: FS, after: FS, umask: Mode, rootPaths: seq<Path>) {
    WellFormed(after) &&
    forall q ::
      (forall i | 0 <= i < |rootPaths| :: !(rootPaths[i] <= q)) ==>
        Get(after, q) == Get(fs, q) ||
        (q !in fs && Get(after, q) == Some(DirNode(DirDefault(umask))) &&
         exists i | 0 <= i < |rootPaths| :: q < rootPaths[i])
  }

  lemma TouchedTrans(a: FS, b: FS, c: FS, umask: Mode, rootPaths: seq<Path>)
    requires OnlyRootsTouched(a, b, umask, rootPaths) && OnlyRootsTouched(b, c, umask, rootPaths)
    ensures OnlyRootsTouched(a, c, umask, rootPaths)
  {
  }

  /** A change at one output path, plus directories above it, stays within the roots. */
  lemma TouchedAt(fs: FS, after: FS, umask: Mode, rootPaths: seq<Path>, i: nat, p: Path)
    requires WellFormed(after) && i < |rootPaths| && rootPaths[i] <= p
    requires forall q :: q != p ==> Get(after, q) == Get(fs, q) ||
                                    (q < p && q !in fs && Get(after, q) == Some(DirNode(DirDefault(umask))))
    ensures OnlyRootsTouched(fs, after, umask, rootPaths)
  {
    forall q | forall k | 0 <= k < |rootPaths| :: !(rootPaths[k] <= q)
      ensures Get(after, q) == Get(fs, q) ||
              (q !in fs && Get(after, q) == Some(DirNode(DirDefault(umask))) &&
               exists k | 0 <= k < |rootPaths| :: q < rootPaths[k])
    {
      assert !(rootPaths[i] <= q);
      if q < p {
        PrefixesCompare(q, rootPaths[i], p);
      }
    }
  }

  lemma EntryTouchesRoots(fs: FS, side: Side, umask: Mode, rootPaths: seq<Path>, e: TransferEntry,
                          inc: Incoming, rid: U32, at: nat)
    requires WellFormed(fs) && at <= |inc.frames|
    ensures OnlyRootsTouched(fs, ReceiveEntry(fs, side, umask, rootPaths, e, inc, rid, at).fs, umask, rootPaths)
  {
    var resolved := ResolveEntry(rootPaths, e);
    if resolved.Ok? {
      var p, i := resolved.value, e.rootIndex;
      assert rootPaths[i] <= p;
      var after := ReceiveEntry(fs, side, umask, rootPaths, e, inc, rid, at).fs;
      hide ResolveEntry, ReceiveData, OnlyRootsTouched, MkdirAll, OpenTruncate;
      if e.kind.DirectoryEntry? {
        var it := Item(p, DirectoryEntry, e.mode, []);
        ApplyItemExact(fs, side, umask, it);
        TouchedAt(fs, after, umask, rootPaths, i, p);
      } else {
        OpenOutputExact(fs, umask, p, e.mode);
        var (ready, opening) := OpenOutput(fs, umask, p, e.mode);
        hide OpenOutput;
        if opening.Ok? {
          assert Get(ready, p).Some?;
          FileWrittenKeeps(ready, after, p, e, side, ReceiveData(inc, rid, at, e.size).data);
          TouchedAt(fs, after, umask, rootPaths, i, p);
        } else {
          TouchedAt(fs, after, umask, rootPaths, i, p);
        }
      }
    }
  }

  lemma FileWrittenKeeps(ready: FS, after: FS, p: Path, e: TransferEntry, side: Side, data: seq<Byte>)
    requires WellFormed(ready) && IsFile(ready, p)
    requires after == Append(ready, p, data) ||
             after == FinishMode(Append(ready, p, data), p, e.mode, FinalFileMode(side, e.mode))
    ensures WellFormed(after) && forall q :: q != p ==> Get(after, q) == Get(ready, q)
  {
  }

  lemma {:induction false} EntriesTouchRoots(fs: FS, side: Side, umask: Mode, rootPaths: seq<Path>,
                                             entries: seq<TransferEntry>, inc: Incoming, rid: U32, at: nat)
    requires WellFormed(fs) && at <= |inc.frames|
    ensures OnlyRootsTouched(fs, ReceiveEntries(fs, side, umask, rootPaths, entries, inc, rid, at).fs, umask, rootPaths)
    decreases |entries|
  {
    hide ReceiveEntry;
    if entries != [] {
      EntryTouchesRoots(fs, side, umask, rootPaths, entries[0], inc, rid, at);
      var one := ReceiveEntry(fs, side, umask, rootPaths, entries[0], inc, rid, at);
      if one.Unpacked? {
        EntriesTouchRoots(one.fs, side, umask, rootPaths, entries[1..], inc, rid, one.next);
        var whole := ReceiveEntries(fs, side, umask, rootPaths, entries, inc, rid, at).fs;
        TouchedTrans(fs, one.fs, whole, umask, rootPaths);
      }
    }
  }

  /** On any stream, complete or broken, with any manifest: only paths at or below the roots change. */
  lemma BatchTouchesRoots(fs: FS, side: Side, umask: Mode, rootPaths: seq<Path>, entries: seq<TransferEntry>,
                          inc: Incoming, rid: U32)
    requires WellFormed(fs)
    ensures OnlyRootsTouched(fs, ReceiveBatch(fs, side, umask, rootPaths, entries, inc, rid).fs, umask, rootPaths)
  {
    EntriesTouchRoots(fs, side, umask, rootPaths, entries, inc, rid, 0);
  }
}
