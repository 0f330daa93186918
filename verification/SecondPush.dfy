/**
 The second of two equal pushes in the nesting case: where it goes, what it
 leaves, and that there are such pushes.
 */
module SecondPush {
  import opened Base
  import opened Paths
  import opened Trees
  import opened FileSystem
  import opened Manifest
  import opened Roots
  import opened Sender
  import opened Push
  import opened Listing
  import opened States
  import opened Staging
  import opened StagedPush
  import opened StagedOutcomes
  import opened Verification

  /** Nothing about a push of one root is lost on the network, and its staging path does not exist. */
  ghost predicate ComesThrough(fs: FS, final: Path, source: Source, run: RootRun) {
    final != [] && StagedPath(final, run.nonce, 0) !in fs && SourceUnchanged(source, run.upload) && run.probed &&
    FullyDelivered(ForestManifest([source]), run.upload) && run.moveReached && run.moveAcked
  }

  /** `p` holds a copy of `t`, but for `name` and what is below it. */
  ghost predicate HoldsCopyAround(fs: FS, p: Path, umask: Mode, t: Tree, name: Name) {
    forall rel: Path | !([name] <= rel) :: Get(fs, p + rel) == Copied(umask, Lookup(t, rel))
  }

  /** Outside `p` nothing has changed. */
  ghost predicate OnlyBelow(fs: FS, after: FS, p: Path) {
    forall q | !(p <= q) :: Get(after, q) == Get(fs, q)
  }

  /** The one root of the second run uploads where nothing matches. */
  lemma OneRootUploads(h: Hash, fs: FS, umask: Mode, inner: Path, source: Source, run: RootRun)
    requires WellFormed(fs) && ComesThrough(fs, inner, source, run) && !FileAbove(fs, inner)
    requires !RemoteMatches(h, true, fs, inner, run.seen)
    ensures Fitting([inner], ForestManifest([source]), [run])
    ensures StagingReady(fs, Parent(inner), [inner], [source], [run])
    ensures var rs := PushRoots(h, fs, umask, [inner], ForestManifest([source]), true, [run], 0).1;
            |rs| == 1 && rs[0].Uploaded? && NoneFailed(rs)
  {
    hide RemoteMatches, PushRoots, FullyDelivered, SourceUnchanged, StagedPath;
    StagedPathIsSibling(inner, run.nonce, 0);
    var m := ForestManifest([source]);
    assert |m.roots| == |m.sources| == 1;
    hide ForestManifest, WellFormed, FileAbove;
    var rs := PushRoots(h, fs, umask, [inner], m, true, [run], 0).1;
    StagedPushSucceedsIff(h, fs, umask, Parent(inner), [inner], [source], true, [run], 0);
    assert RootGoesWell(h, fs, inner, source, true, run);
    StagedPushReplaces(h, fs, umask, Parent(inner), [inner], [source], true, [run]);
    FirstNotSkipped(h, fs, umask, [inner], m, [run]);
  }

  lemma SharedStart(p: Path, name: Name, rel: Path)
    requires p + [name] <= p + rel
    ensures [name] <= rel
  {
    assert (p + rel)[|p|] == (p + [name])[|p|];
  }

  lemma AroundTheInner(fs: FS, later: FS, umask: Mode, p: Path, name: Name, t: Tree)
    requires HoldsCopy(fs, p, umask, t) && OnlyBelow(fs, later, p + [name])
    ensures HoldsCopyAround(later, p, umask, t, name)
  {
    forall rel: Path | !([name] <= rel)
      ensures Get(later, p + rel) == Copied(umask, Lookup(t, rel))
    {
      if p + [name] <= p + rel {
        SharedStart(p, name, rel);
      }
      assert Get(fs, p + rel) == Copied(umask, Lookup(t, rel));
    }
  }

  lemma NoNewDirs(fs: FS, later: FS, umask: Mode, p: Path, inner: Path)
    requires WellFormed(fs) && p in fs && inner != [] && Parent(inner) == p
    requires forall q | (forall i | 0 <= i < |[inner]| :: !([inner][i] <= q)) :: SameOrNewDir(fs, later, umask, p, q)
    ensures OnlyBelow(fs, later, inner)
  {
    forall q | !(inner <= q)
      ensures Get(later, q) == Get(fs, q)
    {
      assert forall i | 0 <= i < |[inner]| :: !([inner][i] <= q);
      assert SameOrNewDir(fs, later, umask, p, q);
      if q <= p {
        if |q| == |p| {
          assert q == p;
        } else {
          PrefixesAreDirs(fs, p, q);
        }
      }
    }
  }

  /**
   A successful push of one directory to a path that is no directory yet, repeated with nothing lost: the second
   run puts another copy inside the first, at `destination/name`, and leaves the first copy around it.
   */
  lemma NestedSecondPush(h: Hash, fs: FS, umask: Mode, destination: Destination, base: Path, finals: seq<Path>,
                         sources: seq<Source>, runs: seq<RootRun>, again: seq<RootRun>)
    requires PredictedRoots(fs, Some(destination), RootsOf(sources)) == Ok(finals)
    requires StagingReady(fs, base, finals, sources, runs) && SeenUnchanged(sources, runs) && AskedAgain(sources, again)
    requires NoneFailed(PushRoots(h, fs, umask, finals, ForestManifest(sources), true, runs, 0).1)
    requires WillNest(fs, destination, RootsOf(sources))
    requires var after := PushRoots(h, fs, umask, finals, ForestManifest(sources), true, runs, 0).0;
             |sources| == |again| == 1 && ComesThrough(after, destination.path + [sources[0].name], sources[0], again[0])
    ensures var m, inner, t := ForestManifest(sources), destination.path + [sources[0].name], sources[0].tree;
            var after := PushRoots(h, fs, umask, finals, m, true, runs, 0).0;
            PredictedRoots(after, Some(destination), RootsOf(sources)) == Ok([inner]) && Fitting([inner], m, again) &&
            var (later, rs) := PushRoots(h, after, umask, [inner], m, true, again, 0);
            |rs| == 1 && rs[0].Uploaded? && HoldsCopy(after, destination.path, umask, t) &&
            HoldsCopy(later, inner, umask, t) && HoldsCopyAround(later, destination.path, umask, t, sources[0].name) &&
            OnlyBelow(after, later, inner)
  {
    hide *;
    var m := ForestManifest(sources);
    ReadyMeans(fs, base, finals, sources, runs);
    var (after, rs) := PushRoots(h, fs, umask, finals, m, true, runs, 0);
    StagedPushReplaces(h, fs, umask, base, finals, sources, true, runs);
    StagedPushVerifies(h, true, fs, umask, base, finals, sources, true, runs);
    PushedRootsWritten(h, fs, after, umask, base, finals, sources, runs, rs);
    RootsResolveAgain(fs, after, umask, destination, RootsOf(sources));
    NestingIsDirectory(fs, destination, sources);
    NestedRunUploads(h, fs, after, umask, destination, finals, sources, runs, again, rs);
    SecondRun(h, after, umask, destination.path, sources[0], again[0]);
    assert sources == [sources[0]] && again == [again[0]];
  }

  lemma NestingIsDirectory(fs: FS, destination: Destination, sources: seq<Source>)
    requires WillNest(fs, destination, RootsOf(sources))
    ensures |sources| == 1 && sources[0].tree.DirTree?
  {
    assert RootsOf(sources)[0] == RootOf(sources[0]);
  }

  /** The second run, on a copy of its source. */
  lemma SecondRun(h: Hash, after: FS, umask: Mode, p: Path, source: Source, run: RootRun)
    requires WellFormed(after) && HoldsCopy(after, p, umask, source.tree)
    requires source.tree.DirTree? && !RemoteMatches(h, true, after, p + [source.name], run.seen)
    requires ComesThrough(after, p + [source.name], source, run)
    ensures Fitting([p + [source.name]], ForestManifest([source]), [run])
    ensures var inner := p + [source.name];
            var (later, rs) := PushRoots(h, after, umask, [inner], ForestManifest([source]), true, [run], 0);
            |rs| == 1 && rs[0].Uploaded? && HoldsCopy(later, inner, umask, source.tree) &&
            HoldsCopyAround(later, p, umask, source.tree, source.name) && OnlyBelow(after, later, inner)
  {
    hide *;
    var inner := p + [source.name];
    CopyIsDir(after, p, umask, source.tree, source.name);
    OneRootUploads(h, after, umask, inner, source, run);
    var (later, rs) := PushRoots(h, after, umask, [inner], ForestManifest([source]), true, [run], 0);
    StagedPushReplaces(h, after, umask, p, [inner], [source], true, [run]);
    NoNewDirs(after, later, umask, p, inner);
    AroundTheInner(after, later, umask, p, source.name, source.tree);
  }

  lemma CopyIsDir(fs: FS, p: Path, umask: Mode, t: Tree, name: Name)
    requires WellFormed(fs) && HoldsCopy(fs, p, umask, t) && t.DirTree?
    ensures p in fs && !FileAbove(fs, p + [name]) && p + [name] != [] && Parent(p + [name]) == p
  {
    assert p + [] == p;
    assert Get(fs, p + []) == Copied(umask, Lookup(t, []));
    NoFileAboveExisting(fs, p);
    forall k | 0 <= k < |p + [name]|
      ensures !IsFile(fs, (p + [name])[..k])
    {
      assert (p + [name])[..k] == p[..k];
    }
  }

  // ---------------------------------------------------------------------
  // There are such pushes
  // ---------------------------------------------------------------------

  /** An empty directory. */
  function EmptyDirectory(name: Name, mode: Mode): Source {
    Source([], name, DirTree(mode, []))
  }

  /** The push of an empty directory with every request answered: no file is read, and only the EOF frame is sent. */
  function CleanRun(source: Source, nonce: nat): RootRun {
    var delivered := |Frames.Wire(PushStream(ForestManifest([source]), []))|;
    RootRun(source.tree, true, nonce, Attempt(true, [], delivered, true), true, true, true)
  }

  lemma NothingToRead(source: Source, mode: Mode)
    requires source.tree == DirTree(mode, [])
    ensures ForestContents([source]) == [] && ForestManifest([source]).files == [] && ForestManifest([source]).totalBytes == 0
  {
    var visits := SourceVisits(source.tree);
    assert Canon(source.tree) == DirTree(mode, []);
    assert visits == Walk(DirTree(mode, []), []) == [Visit([], DirNode(mode))] + WalkEach([], []);
    assert visits == [Visit([], DirNode(mode))];
    var v := visits[0];
    assert [source][1..] == [] && visits[1..] == [];
    assert OwnContent(v) == [] && Contents([]) == [] && Contents(visits) == [] && ForestContents([]) == [];
    hide SourceVisits;
    assert TallyWalk(0, source.Path(), visits) == Plus(TallyVisit(0, source.Path(), v), Tally([], [], 0));
    assert ForestTally([source], 0) == Plus(TallyWalk(0, source.Path(), visits), ForestTally([], 1));
  }

  lemma EmptyDelivered(name: Name, mode: Mode, nonce: nat)
    ensures var source := EmptyDirectory(name, mode);
            SourceUnchanged(source, CleanRun(source, nonce).upload) &&
            FullyDelivered(ForestManifest([source]), CleanRun(source, nonce).upload)
  {
    hide ForestManifest, ForestContents, Frames.Wire, PushStream, SourceVisits;
    var source := EmptyDirectory(name, mode);
    NothingToRead(source, mode);
    NothingToSend(ForestManifest([source]));
  }

  lemma NothingToSend(m: BatchManifest)
    requires m.files == [] && m.totalBytes == 0
    ensures StreamComplete(m, [])
  {
  }

  lemma CleanComesThrough(fs: FS, final: Path, name: Name, mode: Mode, nonce: nat)
    requires final != [] && StagedPath(final, nonce, 0) !in fs
    ensures ComesThrough(fs, final, EmptyDirectory(name, mode), CleanRun(EmptyDirectory(name, mode), nonce))
  {
    EmptyDelivered(name, mode, nonce);
    hide SourceUnchanged, FullyDelivered, ForestManifest, StagedPath, Frames.Wire, PushStream;
  }

  lemma DestinationIsFree(fs: FS, p: Path, source: Source)
    requires p !in fs && !FileAbove(fs, p) && source.tree.DirTree?
    ensures PredictedRoots(fs, Some(Destination(p, false)), RootsOf([source])) == Ok([p])
    ensures WillNest(fs, Destination(p, false), RootsOf([source]))
  {
    hide FileAbove;
    var roots := RootsOf([source]);
    assert |roots| == 1 && roots[1..] == [] && roots[0] == RootOf(source);
    RepeatedNameNone(roots, {});
  }

  lemma NotThereNoMatch(h: Hash, fs: FS, p: Path, t: Tree)
    requires p !in fs
    ensures !RemoteMatches(h, true, fs, p, t)
  {
  }

  lemma StagedBelowIsFree(after: FS, umask: Mode, p: Path, name: Name, mode: Mode, nonce: nat)
    requires HoldsCopy(after, p, umask, EmptyDirectory(name, mode).tree)
    ensures p + [name] != [] && StagedPath(p + [name], nonce, 0) !in after
  {
    var rel := [StagedName(name, nonce, 0)];
    var t := EmptyDirectory(name, mode).tree;
    assert StagedPath(p + [name], nonce, 0) == p + rel;
    assert Get(after, p + rel) == Copied(umask, Lookup(t, rel));
    assert Lookup(t, rel) == None;
  }

  lemma EmptyIsDirectory(name: Name, mode: Mode)
    ensures EmptyDirectory(name, mode).name == name && EmptyDirectory(name, mode).tree.DirTree?
  {
  }

  lemma AskedTwice(source: Source, nonce: nat)
    ensures SeenUnchanged([source], [CleanRun(source, nonce)]) && AskedAgain([source], [CleanRun(source, nonce)])
  {
  }

  /** Wherever a destination does not exist, an empty directory pushed there twice meets what is asked above. */
  lemma NestingHappens(h: Hash, fs: FS, umask: Mode, p: Path, name: Name, mode: Mode, nonce: nat)
    returns (finals: seq<Path>, sources: seq<Source>, runs: seq<RootRun>, again: seq<RootRun>)
    requires WellFormed(fs) && p != [] && p !in fs && !FileAbove(fs, p) && StagedPath(p, nonce, 0) !in fs
    ensures PredictedRoots(fs, Some(Destination(p, false)), RootsOf(sources)) == Ok(finals)
    ensures StagingReady(fs, Parent(p), finals, sources, runs) && SeenUnchanged(sources, runs) && AskedAgain(sources, again)
    ensures NoneFailed(PushRoots(h, fs, umask, finals, ForestManifest(sources), true, runs, 0).1)
    ensures WillNest(fs, Destination(p, false), RootsOf(sources))
    ensures var after := PushRoots(h, fs, umask, finals, ForestManifest(sources), true, runs, 0).0;
            |sources| == |again| == 1 && ComesThrough(after, p + [sources[0].name], sources[0], again[0])
  {
    hide *;
    var source := EmptyDirectory(name, mode);
    var run := CleanRun(source, nonce);
    finals, sources, runs, again := [p], [source], [run], [run];
    AskedTwice(source, nonce);
    EmptyIsDirectory(name, mode);
    DestinationIsFree(fs, p, source);
    NotThereNoMatch(h, fs, p, run.seen);
    CleanComesThrough(fs, p, name, mode, nonce);
    OneRootUploads(h, fs, umask, p, source, run);
    StagedPushReplaces(h, fs, umask, Parent(p), finals, sources, true, runs);
    var (after, rs) := PushRoots(h, fs, umask, finals, ForestManifest(sources), true, runs, 0);
    StagedBelowIsFree(after, umask, p, name, mode, nonce);
    CleanComesThrough(after, p + [name], name, mode, nonce);
  }
}
