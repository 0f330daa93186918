/**
 Transfers from one file system to another: the sources are what one holds, the
 reads are what opening the manifest's paths on it yields, and the result is
 told path by path.
 */
module DiskToDisk {
  import opened Base
  import opened Frames
  import opened Paths
  import opened Trees
  import opened FileSystem
  import opened Manifest
  import opened Overlay
  import opened Roots
  import opened Sender
  import opened Forest
  import opened Transfer
  import opened Pull
  import opened PullTheorems
  import opened Push

  // ---------------------------------------------------------------------
  // The files a manifest names, on a file system that holds its sources
  // ---------------------------------------------------------------------

  /** What a file at a path of this file system holds. */
  ghost predicate HoldsFile(fs: FS, p: Path, data: seq<Byte>) {
    p in fs && fs[p].FileNode? && fs[p].data == data
  }

  /** A tree found at a path, as far as its files go. */
  ghost predicate HoldsFilesOf(fs: FS, p: Path, t: Tree) {
    forall rel: Path | Lookup(t, rel).Some? && Lookup(t, rel).value.FileNode? ::
      HoldsFile(fs, p + rel, Lookup(t, rel).value.data)
  }

  ghost predicate FilesHold(fs: FS, files: seq<BatchFile>, contents: seq<seq<Byte>>) {
    |files| == |contents| && forall k | 0 <= k < |files| :: HoldsFile(fs, files[k].path, contents[k])
  }

  lemma {:induction false} WalkFilesHold(fs: FS, root: nat, base: Path, t: Tree, vs: seq<Visit>)
    requires HoldsFilesOf(fs, base, t) && forall v | v in vs :: Lookup(t, v.path) == Some(v.node)
    ensures FilesHold(fs, TallyWalk(root, base, vs).files, Contents(vs))
    decreases |vs|
  {
    hide PathText, Lookup;
    if vs != [] {
      assert vs[0] in vs && forall v | v in vs[1..] :: v in vs;
      WalkFilesHold(fs, root, base, t, vs[1..]);
    }
  }

  /** In a file system that holds the sources, file `k` of their manifest holds their `k`-th content. */
  lemma {:induction false} ForestFilesHold(fs: FS, sources: seq<Source>, from: nat)
    requires ValidSources(sources) && forall i | 0 <= i < |sources| :: HoldsFilesOf(fs, sources[i].Path(), sources[i].tree)
    ensures FilesHold(fs, ForestTally(sources, from).files, ForestContents(sources))
    decreases |sources|
  {
    hide TallyWalk, SourceVisits, Contents, HoldsFile, ValidTree, Lookup;
    if sources != [] {
      var vs := SourceVisits(sources[0].tree);
      forall v | v in vs
        ensures Lookup(sources[0].tree, v.path) == Some(v.node)
      {
        SourceVisitSound(sources[0].tree, v);
      }
      WalkFilesHold(fs, from, sources[0].Path(), sources[0].tree, vs);
      ForestFilesHold(fs, sources[1..], from + 1);
    }
  }

  // ---------------------------------------------------------------------
  // Reading a file system
  // ---------------------------------------------------------------------

  /** Opening any file of this file system yields all its bytes, in some blocks. */
  ghost predicate ReadsDisk(read: FileReader, fs: FS) {
    forall p | IsFile(fs, p) :: read(p).Some? && Joined(read(p).value) == fs[p].data
  }

  function BlocksOf(data: seq<Byte>): seq<ReadBlock>
    decreases |data|
  {
    if data == [] then []
    else
      var n := if |data| <= DEFAULT_STREAM_CHUNK_SIZE then |data| else DEFAULT_STREAM_CHUNK_SIZE;
      [data[..n]] + BlocksOf(data[n..])
  }

  lemma {:induction false} BlocksJoin(data: seq<Byte>)
    ensures Joined(BlocksOf(data)) == data
    decreases |data|
  {
    if data != [] {
      var n := if |data| <= DEFAULT_STREAM_CHUNK_SIZE then |data| else DEFAULT_STREAM_CHUNK_SIZE;
      BlocksJoin(data[n..]);
      assert data == data[..n] + data[n..];
    }
  }

  /** Every file system can be read. */
  lemma DiskCanBeRead(fs: FS) returns (read: FileReader)
    ensures ReadsDisk(read, fs)
  {
    read := p => if IsFile(fs, p) then Some(BlocksOf(fs[p].data)) else None;
    forall p | IsFile(fs, p)
      ensures read(p).Some? && Joined(read(p).value) == fs[p].data
    {
      BlocksJoin(fs[p].data);
    }
  }

  /** The sources at some paths of a file system. */
  ghost function SourceAt(fs: FS, p: Path): Source
    requires p in fs && p != []
  {
    Source(Parent(p), p[|p| - 1], TreeAt(fs, p))
  }

  ghost predicate Present(fs: FS, ps: seq<Path>) {
    forall i | 0 <= i < |ps| :: ps[i] in fs && ps[i] != []
  }

  ghost function SourcesAt(fs: FS, ps: seq<Path>): (sources: seq<Source>)
    requires Present(fs, ps)
    ensures |sources| == |ps|
    ensures forall i | 0 <= i < |ps| :: sources[i] == SourceAt(fs, ps[i])
  {
    seq(|ps|, i requires 0 <= i < |ps| => SourceAt(fs, ps[i]))
  }

  lemma SourceAtHolds(fs: FS, p: Path)
    requires WellFormed(fs) && p in fs && p != []
    ensures var s := SourceAt(fs, p);
            s.Path() == p && ValidTree(s.tree) && Holds(fs, p, s.tree) && HoldsFilesOf(fs, p, s.tree)
  {
    hide TreeAt, ValidTree, Lookup;
    TreeAtHolds(fs, p);
    var t := TreeAt(fs, p);
    forall rel: Path | Lookup(t, rel).Some? && Lookup(t, rel).value.FileNode?
      ensures HoldsFile(fs, p + rel, Lookup(t, rel).value.data)
    {
      assert Get(fs, p + rel) == Lookup(t, rel);
    }
  }

  lemma SourcesAtValid(fs: FS, ps: seq<Path>)
    requires WellFormed(fs) && Present(fs, ps)
    ensures ValidSources(SourcesAt(fs, ps))
    ensures forall i | 0 <= i < |ps| ::
              SourcesAt(fs, ps)[i].Path() == ps[i] && HoldsFilesOf(fs, ps[i], SourcesAt(fs, ps)[i].tree)
  {
    hide SourceAt, ValidTree, HoldsFilesOf, WellFormed;
    forall i | 0 <= i < |ps|
      ensures ValidTree(SourcesAt(fs, ps)[i].tree)
      ensures SourcesAt(fs, ps)[i].Path() == ps[i] && HoldsFilesOf(fs, ps[i], SourcesAt(fs, ps)[i].tree)
    {
      SourceAtHolds(fs, ps[i]);
    }
  }

  /** Opened by its manifest's paths on the file system that holds it, a forest yields its own contents. */
  lemma DiskIsUnchanged(fs: FS, ps: seq<Path>, read: FileReader)
    requires WellFormed(fs) && Present(fs, ps) && ReadsDisk(read, fs)
    ensures var sources := SourcesAt(fs, ps);
            ValidSources(sources) && Unchanged(sources, ReadsOf(read, ForestManifest(sources).files))
  {
    hide *;
    var sources := SourcesAt(fs, ps);
    SourcesAtValid(fs, ps);
    ForestFilesHold(fs, sources, 0);
    ManifestFiles(sources);
    HeldIsRead(fs, sources, ForestManifest(sources).files, read);
  }

  lemma ManifestFiles(sources: seq<Source>)
    ensures ForestManifest(sources).files == ForestTally(sources, 0).files
  {
  }

  lemma HeldIsRead(fs: FS, sources: seq<Source>, files: seq<BatchFile>, read: FileReader)
    requires FilesHold(fs, files, ForestContents(sources)) && ReadsDisk(read, fs)
    ensures Unchanged(sources, ReadsOf(read, files))
  {
    hide ForestContents, Joined;
    var fileReads := ReadsOf(read, files);
    if |fileReads| < |files| {
      assert HoldsFile(fs, files[|fileReads|].path, ForestContents(sources)[|fileReads|]);
    }
    forall k | 0 <= k < |fileReads|
      ensures Joined(fileReads[k]) == ForestContents(sources)[k]
    {
      assert HoldsFile(fs, files[k].path, ForestContents(sources)[k]);
    }
  }

  // ---------------------------------------------------------------------
  // From disk to disk
  // ---------------------------------------------------------------------

  /** The same kind, the same bytes, and the same mode unless that is zero. */
  predicate SameNode(sent: Node, got: Option<Node>) {
    got.Some? && (sent.mode != 0 ==> got.value.mode == sent.mode) &&
    match sent
    case FileNode(_, data) => got.value.FileNode? && got.value.data == data
    case DirNode(_) => got.value.DirNode?
  }

  /** Everything at and below `p` has come to `q`; what was there besides is as before. */
  ghost predicate CopiedTo(source: FS, p: Path, before: FS, after: FS, q: Path) {
    forall rel: Path ::
      if p + rel in source then SameNode(source[p + rel], Get(after, q + rel)) else Get(after, q + rel) == Get(before, q + rel)
  }

  /** Nothing stands in the way: no file above `q`, and nothing of the other kind where something is to come. */
  ghost predicate NothingInTheWay(source: FS, p: Path, before: FS, q: Path) {
    !FileAbove(before, q) &&
    forall rel: Path | p + rel in source && q + rel in before :: source[p + rel].FileNode? <==> before[q + rel].FileNode?
  }

  /** Away from the roots only missing directories on the way to them are new. */
  ghost predicate OnlyWaysMade(before: FS, after: FS, umask: Mode, rootPaths: seq<Path>) {
    forall q: Path | (forall i | 0 <= i < |rootPaths| :: !(rootPaths[i] <= q)) ::
      Get(after, q) == Get(before, q) ||
      (q !in before && (exists i | 0 <= i < |rootPaths| :: q < rootPaths[i]) &&
       Get(after, q) == Some(DirNode(DirDefault(umask))))
  }

  lemma LaidIsCopied(source: FS, ps: seq<Path>, before: FS, after: FS, side: Side, umask: Mode, rootPaths: seq<Path>)
    requires WellFormed(source) && Present(source, ps) && |rootPaths| == |ps|
    requires LaidOver(before, after, side, umask, rootPaths, SourcesAt(source, ps))
    ensures forall i | 0 <= i < |ps| :: CopiedTo(source, ps[i], before, after, rootPaths[i])
    ensures OnlyWaysMade(before, after, umask, rootPaths)
  {
    hide SourceAt, WellFormed, Lookup, LaidOver, LaidAt, CopiedTo, OnlyWaysMade, Holds, LaidNode, SameNode, HoldsFilesOf, ValidTree;
    forall i | 0 <= i < |ps|
      ensures CopiedTo(source, ps[i], before, after, rootPaths[i])
    {
      SourceAtHolds(source, ps[i]);
      RootIsLaid(before, after, side, umask, rootPaths, SourcesAt(source, ps), i);
      RootIsCopied(source, ps[i], before, after, side, umask, rootPaths[i], SourcesAt(source, ps)[i].tree);
    }
    WaysAreMade(before, after, side, umask, rootPaths, SourcesAt(source, ps));
  }

  ghost predicate LaidAt(before: FS, after: FS, side: Side, umask: Mode, q: Path, t: Tree) {
    forall rel: Path :: Get(after, q + rel) == LaidNode(before, side, umask, q, t, rel)
  }

  lemma RootIsLaid(before: FS, after: FS, side: Side, umask: Mode, rootPaths: seq<Path>, sources: seq<Source>, i: nat)
    requires |rootPaths| == |sources| && i < |sources| && LaidOver(before, after, side, umask, rootPaths, sources)
    ensures LaidAt(before, after, side, umask, rootPaths[i], sources[i].tree)
  {
    hide LaidNode;
  }

  lemma WaysAreMade(before: FS, after: FS, side: Side, umask: Mode, rootPaths: seq<Path>, sources: seq<Source>)
    requires |rootPaths| == |sources| && LaidOver(before, after, side, umask, rootPaths, sources)
    ensures OnlyWaysMade(before, after, umask, rootPaths)
  {
    hide LaidNode;
  }

  lemma RootIsCopied(source: FS, p: Path, before: FS, after: FS, side: Side, umask: Mode, q: Path, t: Tree)
    requires Holds(source, p, t) && LaidAt(before, after, side, umask, q, t)
    ensures CopiedTo(source, p, before, after, q)
  {
    hide Lookup;
    forall rel: Path
      ensures if p + rel in source then SameNode(source[p + rel], Get(after, q + rel))
              else Get(after, q + rel) == Get(before, q + rel)
    {
      assert Get(source, p + rel) == Lookup(t, rel);
      assert Get(after, q + rel) == LaidNode(before, side, umask, q, t, rel);
    }
  }

  lemma ClearIsNothingInTheWay(source: FS, ps: seq<Path>, before: FS, rootPaths: seq<Path>)
    requires WellFormed(source) && Present(source, ps) && |rootPaths| == |ps|
    ensures ClearWay(before, rootPaths, SourcesAt(source, ps)) <==>
            forall i | 0 <= i < |ps| :: NothingInTheWay(source, ps[i], before, rootPaths[i])
  {
    hide SourceAt, WellFormed, Lookup, FileAbove;
    var sources := SourcesAt(source, ps);
    forall i | 0 <= i < |ps|
      ensures Holds(source, ps[i], sources[i].tree)
    {
      SourceAtHolds(source, ps[i]);
    }
    if ClearWay(before, rootPaths, sources) {
      forall i, rel: Path | 0 <= i < |ps| && ps[i] + rel in source && rootPaths[i] + rel in before
        ensures source[ps[i] + rel].FileNode? <==> before[rootPaths[i] + rel].FileNode?
      {
        assert Get(source, ps[i] + rel) == Lookup(sources[i].tree, rel);
        assert !Clashes(Get(before, rootPaths[i] + rel), KindOf(Lookup(sources[i].tree, rel).value));
      }
    }
    if forall i | 0 <= i < |ps| :: NothingInTheWay(source, ps[i], before, rootPaths[i]) {
      forall i, rel | 0 <= i < |sources| && Lookup(sources[i].tree, rel).Some?
        ensures !Clashes(Get(before, rootPaths[i] + rel), KindOf(Lookup(sources[i].tree, rel).value))
      {
        assert NothingInTheWay(source, ps[i], before, rootPaths[i]);
        assert Get(source, ps[i] + rel) == Lookup(sources[i].tree, rel);
      }
    }
  }

  /**
   A pull from one file system to another, told in their own paths: it completes exactly when nothing is in the way, and
   then everything at and below each path asked for has come to its root path, and nothing else has changed but for
   missing directories on the way.
   */
  lemma PullFromDisk(remote: FS, ps: seq<Path>, read: FileReader, local: FS, umask: Mode, destination: Destination,
                     rootPaths: seq<Path>, c: Codec, tail: seq<Byte>)
    requires WellFormed(remote) && Present(remote, ps) && ReadsDisk(read, remote) && WellFormed(local)
    requires var sources := SourcesAt(remote, ps);
             Lossless(c) && Fits(c, Metadata(sources)) && Fits(c, PullCompletion(sources)) &&
             LocalRoots(local, destination, RootsOf(sources)) == Ok(rootPaths)
    ensures |rootPaths| == |ps|
    ensures var sources := SourcesAt(remote, ps);
            var input := Wire(PullFrames(c, sources, PullReads(read, sources))) + tail;
            var r := PullClient(local, umask, destination, c, ReadAll(input));
            (r.PullDone? <==> forall i | 0 <= i < |ps| :: NothingInTheWay(remote, ps[i], local, rootPaths[i])) &&
            (r.PullDone? ==>
               (forall i | 0 <= i < |ps| :: CopiedTo(remote, ps[i], local, r.fs, rootPaths[i])) &&
               OnlyWaysMade(local, r.fs, umask, rootPaths))
  {
    hide *;
    var sources := SourcesAt(remote, ps);
    DiskIsUnchanged(remote, ps, read);
    PullReadsAre(read, sources);
    PullRoundTrip(local, umask, destination, rootPaths, c, sources, PullReads(read, sources), tail);
    ClearIsNothingInTheWay(remote, ps, local, rootPaths);
    var r := PullClient(local, umask, destination, c, ReadAll(Wire(PullFrames(c, sources, PullReads(read, sources))) + tail));
    if r.PullDone? {
      LaidIsCopied(remote, ps, local, r.fs, Client, umask, rootPaths);
    }
  }

  lemma PullReadsAre(read: FileReader, sources: seq<Source>)
    ensures PullReads(read, sources) == ReadsOf(read, ForestManifest(sources).files)
  {
  }

  /** The same for a push whose exchange came through. */
  lemma PushFromDisk(local: FS, ps: seq<Path>, read: FileReader, remote: FS, umask: Mode, destination: Option<Destination>,
                     rootPaths: seq<Path>, a: Attempt)
    requires WellFormed(local) && Present(local, ps) && ReadsDisk(read, local) && WellFormed(remote)
    requires var m := ForestManifest(SourcesAt(local, ps));
             DaemonRoots(remote, destination, m.roots) == Ok(rootPaths) && a.fileReads == ReadsOf(read, m.files) &&
             a.reached && a.acked && |Wire(PushStream(m, a.fileReads))| <= a.delivered
    ensures |rootPaths| == |ps|
    ensures var r := PushBatch(remote, umask, destination, ForestManifest(SourcesAt(local, ps)), a);
            (r.Pushed? <==> forall i | 0 <= i < |ps| :: NothingInTheWay(local, ps[i], remote, rootPaths[i])) &&
            (r.Pushed? ==>
               (forall i | 0 <= i < |ps| :: CopiedTo(local, ps[i], remote, r.fs, rootPaths[i])) &&
               OnlyWaysMade(remote, r.fs, umask, rootPaths))
  {
    hide *;
    var sources := SourcesAt(local, ps);
    DiskIsUnchanged(local, ps, read);
    ManifestRootsAre(sources);
    PushRoundTrip(remote, umask, destination, rootPaths, sources, a);
    ClearIsNothingInTheWay(local, ps, remote, rootPaths);
    var r := PushBatch(remote, umask, destination, ForestManifest(sources), a);
    if r.Pushed? {
      LaidIsCopied(local, ps, remote, r.fs, Daemon, umask, rootPaths);
    }
  }

  lemma ManifestRootsAre(sources: seq<Source>)
    ensures ForestManifest(sources).roots == RootsOf(sources)
  {
  }

  // ---------------------------------------------------------------------
  // One path into a directory
  // ---------------------------------------------------------------------

  /** `p` is in the directory `d` now, under its own name, and nothing else has changed. */
  ghost predicate PutInto(source: FS, p: Path, before: FS, after: FS, d: Path)
    requires p != []
  {
    var q := d + [p[|p| - 1]];
    CopiedTo(source, p, before, after, q) && forall x: Path | !(q <= x) :: Get(after, x) == Get(before, x)
  }

  lemma OneSource(source: FS, p: Path)
    requires p in source && p != []
    ensures Present(source, [p]) && SourcesAt(source, [p]) == [SourceAt(source, p)]
    ensures RootsOf(SourcesAt(source, [p])) == [RootOf(SourceAt(source, p))]
    ensures RootOf(SourceAt(source, p)).sourceName == p[|p| - 1]
  {
    hide TreeAt;
  }

  lemma OnlyInto(before: FS, after: FS, umask: Mode, d: Path, q: Path)
    requires WellFormed(before) && IsDir(before, d) && q != [] && Parent(q) == d && OnlyWaysMade(before, after, umask, [q])
    ensures forall x: Path | !(q <= x) :: Get(after, x) == Get(before, x)
  {
    forall x: Path | !(q <= x)
      ensures Get(after, x) == Get(before, x)
    {
      assert forall i | 0 <= i < |[q]| :: !([q][i] <= x);
      if x < q && x !in before {
        PrefixCases(x, q);
        if x != d {
          PrefixesAreDirs(before, d, x);
        }
      }
    }
  }

  /** A file or directory pulled to an existing directory comes into it under its own name; all else in it stays. */
  lemma PullIntoDirectory(remote: FS, p: Path, read: FileReader, local: FS, umask: Mode, d: Path, c: Codec, tail: seq<Byte>)
    requires WellFormed(remote) && p in remote && p != [] && ReadsDisk(read, remote) && WellFormed(local) && IsDir(local, d)
    requires Lossless(c) && Fits(c, Metadata([SourceAt(remote, p)])) && Fits(c, PullCompletion([SourceAt(remote, p)]))
    ensures var sources := [SourceAt(remote, p)];
            var input := Wire(PullFrames(c, sources, PullReads(read, sources))) + tail;
            var r := PullClient(local, umask, Destination(d, false), c, ReadAll(input));
            (r.PullDone? <==> NothingInTheWay(remote, p, local, d + [p[|p| - 1]])) &&
            (r.PullDone? ==> PutInto(remote, p, local, r.fs, d))
  {
    hide *;
    OneSource(remote, p);
    var q, root := d + [p[|p| - 1]], RootOf(SourceAt(remote, p));
    IntoDirectory(local, d, root);
    PullFromDisk(remote, [p], read, local, umask, Destination(d, false), [q], c, tail);
    assert [p][0] == p && [q][0] == q;
    var sources := [SourceAt(remote, p)];
    var r := PullClient(local, umask, Destination(d, false), c, ReadAll(Wire(PullFrames(c, sources, PullReads(read, sources))) + tail));
    if r.PullDone? {
      assert CopiedTo(remote, [p][0], local, r.fs, [q][0]);
      ParentOfChild(d, p[|p| - 1]);
      OnlyInto(local, r.fs, umask, d, q);
      IsPutInto(remote, p, local, r.fs, d);
    }
    OneInTheWay(remote, p, local, q);
  }

  lemma ParentOfChild(d: Path, name: Name)
    ensures d + [name] != [] && Parent(d + [name]) == d
  {
  }

  lemma IsPutInto(source: FS, p: Path, before: FS, after: FS, d: Path)
    requires p != [] && CopiedTo(source, p, before, after, d + [p[|p| - 1]])
    requires forall x: Path | !(d + [p[|p| - 1]] <= x) :: Get(after, x) == Get(before, x)
    ensures PutInto(source, p, before, after, d)
  {
    hide CopiedTo;
  }

  lemma OneInTheWay(source: FS, p: Path, before: FS, q: Path)
    ensures NothingInTheWay(source, p, before, q) <==> forall i | 0 <= i < 1 :: NothingInTheWay(source, [p][i], before, [q][i])
  {
    hide NothingInTheWay;
    assert [p][0] == p && [q][0] == q;
  }

  lemma IntoDirectory(fs: FS, d: Path, root: TransferRoot)
    requires WellFormed(fs) && IsDir(fs, d)
    ensures LocalRoots(fs, Destination(d, false), [root]) == Ok([d + [root.sourceName]])
    ensures DaemonRoots(fs, Some(Destination(d, false)), [root]) == Ok([d + [root.sourceName]])
  {
    hide LocalRoots, DaemonRoots, PredictedRoots;
    OneRootResolves(fs, Destination(d, false), root);
  }

  /** The same for a push. */
  lemma PushIntoDirectory(local: FS, p: Path, read: FileReader, remote: FS, umask: Mode, d: Path, a: Attempt)
    requires WellFormed(local) && p in local && p != [] && ReadsDisk(read, local) && WellFormed(remote) && IsDir(remote, d)
    requires var m := ForestManifest([SourceAt(local, p)]);
             a.fileReads == ReadsOf(read, m.files) && a.reached && a.acked && |Wire(PushStream(m, a.fileReads))| <= a.delivered
    ensures var r := PushBatch(remote, umask, Some(Destination(d, false)), ForestManifest([SourceAt(local, p)]), a);
            (r.Pushed? <==> NothingInTheWay(local, p, remote, d + [p[|p| - 1]])) &&
            (r.Pushed? ==> PutInto(local, p, remote, r.fs, d))
  {
    hide *;
    OneSource(local, p);
    var q, root := d + [p[|p| - 1]], RootOf(SourceAt(local, p));
    IntoDirectory(remote, d, root);
    ManifestRootsAre([SourceAt(local, p)]);
    PushFromDisk(local, [p], read, remote, umask, Some(Destination(d, false)), [q], a);
    assert [p][0] == p && [q][0] == q;
    var r := PushBatch(remote, umask, Some(Destination(d, false)), ForestManifest([SourceAt(local, p)]), a);
    if r.Pushed? {
      assert CopiedTo(local, [p][0], remote, r.fs, [q][0]);
      ParentOfChild(d, p[|p| - 1]);
      OnlyInto(remote, r.fs, umask, d, q);
      IsPutInto(local, p, remote, r.fs, d);
    }
    OneInTheWay(local, p, remote, q);
  }
}
