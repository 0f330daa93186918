/** Verifying a pull: the manifest's own expectation, and whether it is held against the paths that were written. */
module PullVerification {
  import opened Base
  import opened Frames
  import opened Paths
  import opened Trees
  import opened FileSystem
  import opened Manifest
  import opened Overlay
  import opened Receiver
  import opened Roots
  import opened Forest
  import opened Transfer
  import opened Sender
  import opened Pull
  import opened PullTheorems
  import opened Listing
  import opened States
  import opened StagedPush
  import opened Verification

  // ---------------------------------------------------------------------
  // What a manifest leads the client to expect
  // ---------------------------------------------------------------------

  function ExpectedPathState(e: TransferEntry): PathState {
    PathState(e.kind, if e.kind.FileEntry? then Some(e.size) else None, None)
  }

  function Expecting(s: State, entries: seq<TransferEntry>, root: nat): State
    decreases |entries|
  {
    if entries == [] then s
    else
      Expecting(if entries[0].rootIndex == root then s[entries[0].relativePath := ExpectedPathState(entries[0])] else s,
                entries[1..], root)
  }

  /** expected_transfer_state_for_root */
  method ExpectedTransferState(entries: seq<TransferEntry>, root: nat) returns (state: State)
    ensures state == Expecting(map[], entries, root)
  {
    state := map[];
    assert entries[0..] == entries;
    for i := 0 to |entries|
      invariant Expecting(state, entries[i..], root) == Expecting(map[], entries, root)
    {
      assert entries[i..][1..] == entries[i + 1..];
      if entries[i].rootIndex == root {
        state := state[entries[i].relativePath := ExpectedPathState(entries[i])];
      }
    }
  }

  lemma {:induction false} ExpectingAppend(s: State, a: seq<TransferEntry>, b: seq<TransferEntry>, root: nat)
    ensures Expecting(s, a + b, root) == Expecting(Expecting(s, a, root), b, root)
    decreases |a|
  {
    if a == [] {
      assert a + b == b;
    } else {
      assert (a + b)[1..] == a[1..] + b;
      ExpectingAppend(if a[0].rootIndex == root then s[a[0].relativePath := ExpectedPathState(a[0])] else s, a[1..], b, root);
    }
  }

  /** One source's entries, looked at for root `root`. */
  lemma {:induction false} ExpectingWalk(h: Hash, s: State, k: nat, base: Path, vs: seq<Visit>, root: nat)
    ensures Expecting(s, TallyWalk(k, base, vs).entries, root) == if k == root then Inserted(h, false, s, vs) else s
    decreases |vs|
  {
    hide PathText;
    if vs != [] {
      var entries := TallyWalk(k, base, vs).entries;
      assert entries[0] == EntryOf(k, vs[0]) && entries[1..] == TallyWalk(k, base, vs[1..]).entries;
      assert ExpectedPathState(EntryOf(k, vs[0])) == StateOf(h, false, vs[0].node);
      var next := if k == root then s[PathText(vs[0].path) := StateOf(h, false, vs[0].node)] else s;
      ExpectingWalk(h, next, k, base, vs[1..], root);
    }
  }

  lemma {:induction false} ExpectingForest(h: Hash, s: State, sources: seq<Source>, from: nat, root: nat)
    ensures Expecting(s, ForestTally(sources, from).entries, root) ==
            if from <= root < from + |sources| then Inserted(h, false, s, SourceVisits(sources[root - from].tree)) else s
    decreases |sources|
  {
    hide *;
    if sources == [] {
      NothingExpected(s, from, root);
    } else {
      var vs, base := SourceVisits(sources[0].tree), sources[0].Path();
      var first, later := TallyWalk(from, base, vs).entries, ForestTally(sources[1..], from + 1).entries;
      ForestUnfolds(sources, from);
      ExpectingAppend(s, first, later, root);
      ExpectingWalk(h, s, from, base, vs, root);
      ExpectingForest(h, Expecting(s, first, root), sources[1..], from + 1, root);
    }
  }

  lemma NothingExpected(s: State, from: nat, root: nat)
    ensures Expecting(s, ForestTally([], from).entries, root) == s
  {
  }

  lemma ForestUnfolds(sources: seq<Source>, from: nat)
    requires sources != []
    ensures ForestTally(sources, from).entries ==
            TallyWalk(from, sources[0].Path(), SourceVisits(sources[0].tree)).entries + ForestTally(sources[1..], from + 1).entries
  {
    hide TallyWalk, SourceVisits;
  }

  /** The state expected of a root is its source's, kinds and sizes only. */
  lemma ExpectedIsSummary(h: Hash, sources: seq<Source>, i: nat)
    requires i < |sources|
    ensures Expecting(map[], ForestManifest(sources).entries, i) == Summary(h, false, sources[i].tree)
  {
    ExpectingForest(h, map[], sources, 0, i);
  }

  // ---------------------------------------------------------------------
  // The check after a pull
  // ---------------------------------------------------------------------

  ghost predicate RootVerified(h: Hash, fs: FS, p: Path, entries: seq<TransferEntry>, root: nat) {
    p in fs && StatesMatch(Expecting(map[], entries, root), Summary(h, false, TreeAt(fs, p)))
  }

  /** Resolving the destination again, every root's local tree holds what the manifest leads to expect. */
  ghost predicate PullVerified(h: Hash, fs: FS, destination: Destination, roots: seq<TransferRoot>, entries: seq<TransferEntry>) {
    LocalRoots(fs, destination, roots).Ok? &&
    forall i | 0 <= i < |LocalRoots(fs, destination, roots).value| ::
      RootVerified(h, fs, LocalRoots(fs, destination, roots).value[i], entries, i)
  }

  /** The check with hashes: every re-resolved root's local tree matches the remote source tree. */
  ghost predicate HashedPullVerified(h: Hash, fs: FS, destination: Destination, sources: seq<Source>) {
    var resolved := LocalRoots(fs, destination, RootsOf(sources));
    resolved.Ok? && |resolved.value| == |sources| &&
    forall i | 0 <= i < |sources| :: RemoteMatches(h, true, fs, resolved.value[i], sources[i].tree)
  }

  /** verify_local_pull_against_manifest */
  method VerifyLocalPull(h: Hash, fs: FS, read: TreeReader, destination: Destination, roots: seq<TransferRoot>,
                         entries: seq<TransferEntry>) returns (ok: bool)
    requires WellFormed(fs) && ReadsTrees(read)
    ensures ok <==> PullVerified(h, fs, destination, roots, entries)
  {
    hide LocalRoots, RootVerified, ReadsTrees, WellFormed;
    var resolved := LocalRoots(fs, destination, roots);
    if resolved.Err? {
      return false;
    }
    var paths := resolved.value;
    for i := 0 to |paths|
      invariant forall k | 0 <= k < i :: RootVerified(h, fs, paths[k], entries, k)
    {
      var good := VerifyRoot(h, fs, read, paths[i], entries, i);
      if !good {
        return false;
      }
    }
    ok := true;
  }

  method VerifyRoot(h: Hash, fs: FS, read: TreeReader, p: Path, entries: seq<TransferEntry>, root: nat) returns (ok: bool)
    requires WellFormed(fs) && ReadsTrees(read)
    ensures ok <==> RootVerified(h, fs, p, entries, root)
  {
    if p !in fs {
      return false;
    }
    var expected := ExpectedTransferState(entries, root);
    var found := read(fs, p);
    assert ValidTree(found) && Holds(fs, p, found);
    var actual := CollectLocalState(h, false, p, found);
    TreeAtHolds(fs, p);
    WalkSummarises(h, false, TreeAt(fs, p));
    CollectorsAgree(h, false, fs, p, found, TreeAt(fs, p), actual, Summary(h, false, TreeAt(fs, p)));
    ok := StatesMatch(expected, actual);
  }

  // ---------------------------------------------------------------------
  // When it succeeds
  // ---------------------------------------------------------------------

  /** One directory was pulled to a path that did not exist, with no trailing slash. */
  predicate PulledToNewName(fs: FS, destination: Destination, roots: seq<TransferRoot>) {
    |roots| == 1 && roots[0].kind.DirectoryEntry? && destination.path !in fs && !destination.trailingSlash
  }

  lemma LaidRootsWritten(fs: FS, after: FS, umask: Mode, rootPaths: seq<Path>, sources: seq<Source>)
    requires |rootPaths| == |sources| && WellFormed(after) && LaidOver(fs, after, Client, umask, rootPaths, sources)
    ensures RootsWritten(fs, after, umask, rootPaths, RootsOf(sources))
  {
    hide NodeAfter, VisitItem, WellFormed;
    forall i | 0 <= i < |rootPaths|
      ensures rootPaths[i] in after && KindOf(after[rootPaths[i]]) == RootsOf(sources)[i].kind
    {
      var t := sources[i].tree;
      assert rootPaths[i] + [] == rootPaths[i];
      assert Get(after, rootPaths[i] + []) == LaidNode(fs, Client, umask, rootPaths[i], t, []);
      NodeAfterKeepsContent(Client, umask, Get(fs, rootPaths[i] + []), rootPaths[i], [], NodeOf(t));
      assert RootsOf(sources)[i] == RootOf(sources[i]);
    }
    forall q | OutsideAll(rootPaths, q)
      ensures Get(after, q) == Get(fs, q) || (q !in fs && Get(after, q) == Some(DirNode(DirDefault(umask))))
    {
    }
  }

  lemma ClearMeansNewName(fs: FS, destination: Destination, rootPaths: seq<Path>, sources: seq<Source>)
    requires WellFormed(fs) && sources != [] && LocalRoots(fs, destination, RootsOf(sources)) == Ok(rootPaths)
    requires |rootPaths| == |sources| && ClearWay(fs, rootPaths, sources)
    ensures WillNest(fs, destination, RootsOf(sources)) <==> PulledToNewName(fs, destination, RootsOf(sources))
  {
    hide JoinNames, RepeatedName, FileAbove;
    if WillNest(fs, destination, RootsOf(sources)) {
      var t := sources[0].tree;
      assert rootPaths[0] == destination.path;
      assert Lookup(t, []).Some? && rootPaths[0] + [] == rootPaths[0];
      assert !Clashes(Get(fs, rootPaths[0] + []), KindOf(Lookup(t, []).value));
    }
  }

  lemma LocalIsPredicted(fs: FS, destination: Destination, roots: seq<TransferRoot>)
    requires roots != []
    ensures LocalRoots(fs, destination, roots) == PredictedRoots(fs, Some(destination), roots)
  {
    DaemonAndLocalAgree(fs, destination, roots);
    PredictionMatchesDaemon(fs, Some(destination), roots);
  }

  /**
   After a pull laid the forest over the local file system, resolving the destination again gives the paths that
   were written, and verification by size or by hash succeeds, exactly when the pull was not of one directory to a
   new name.
   */
  lemma PullVerifiesIff(h: Hash, fs: FS, after: FS, umask: Mode, destination: Destination, rootPaths: seq<Path>, sources: seq<Source>)
    requires ValidSources(sources) && sources != [] && WellFormed(fs) && WellFormed(after)
    requires LocalRoots(fs, destination, RootsOf(sources)) == Ok(rootPaths) && |rootPaths| == |sources|
    requires ClearWay(fs, rootPaths, sources) && LaidOver(fs, after, Client, umask, rootPaths, sources)
    ensures LocalRoots(after, destination, RootsOf(sources)) == Ok(rootPaths) <==>
            !PulledToNewName(fs, destination, RootsOf(sources))
    ensures PullVerified(h, after, destination, RootsOf(sources), ForestManifest(sources).entries) <==>
            !PulledToNewName(fs, destination, RootsOf(sources))
    ensures HashedPullVerified(h, after, destination, sources) <==> !PulledToNewName(fs, destination, RootsOf(sources))
  {
    hide *;
    var roots := RootsOf(sources);
    RootsAreThere(sources);
    LocalIsPredicted(fs, destination, roots);
    LocalIsPredicted(after, destination, roots);
    ClearMeansNewName(fs, destination, rootPaths, sources);
    LaidRootsWritten(fs, after, umask, rootPaths, sources);
    RootsResolveAgain(fs, after, umask, destination, roots);
    if WillNest(fs, destination, roots) {
      NewNameMeans(fs, destination, rootPaths, sources);
      LaidShape(fs, after, umask, rootPaths, sources);
      NestedFails(h, after, destination, sources);
    } else {
      WrittenVerify(h, fs, after, umask, destination, rootPaths, sources);
    }
  }

  lemma RootsAreThere(sources: seq<Source>)
    requires sources != []
    ensures RootsOf(sources) != [] && |RootsOf(sources)| == |sources|
    ensures RootsOf(sources)[0].sourceName == sources[0].name
  {
  }

  lemma NewNameMeans(fs: FS, destination: Destination, rootPaths: seq<Path>, sources: seq<Source>)
    requires PulledToNewName(fs, destination, RootsOf(sources)) && WillNest(fs, destination, RootsOf(sources))
    requires WellFormed(fs) && LocalRoots(fs, destination, RootsOf(sources)) == Ok(rootPaths)
    ensures |sources| == 1 && rootPaths == [destination.path] && destination.path !in fs
  {
  }

  lemma LaidShape(fs: FS, after: FS, umask: Mode, rootPaths: seq<Path>, sources: seq<Source>)
    requires |rootPaths| == |sources| == 1 && WellFormed(fs) && rootPaths[0] !in fs
    requires LaidOver(fs, after, Client, umask, rootPaths, sources)
    ensures forall rel: Path :: Get(after, rootPaths[0] + rel).Some? <==> Lookup(sources[0].tree, rel).Some?
  {
    hide NodeAfter, VisitItem, WellFormed;
    forall rel: Path
      ensures Get(after, rootPaths[0] + rel).Some? <==> Lookup(sources[0].tree, rel).Some?
    {
      assert Get(after, rootPaths[0] + rel) == LaidNode(fs, Client, umask, rootPaths[0], sources[0].tree, rel);
      NothingBelow(fs, rootPaths[0], rel);
    }
  }

  lemma NestedFails(h: Hash, after: FS, destination: Destination, sources: seq<Source>)
    requires |sources| == 1 && ValidSources(sources) && WellFormed(after)
    requires LocalRoots(after, destination, RootsOf(sources)) == Ok([destination.path + [sources[0].name]])
    requires forall rel: Path :: Get(after, destination.path + rel).Some? <==> Lookup(sources[0].tree, rel).Some?
    ensures !PullVerified(h, after, destination, RootsOf(sources), ForestManifest(sources).entries)
    ensures !HashedPullVerified(h, after, destination, sources)
  {
    hide LocalRoots, WellFormed, ForestManifest, StatesMatch, Summary;
    NestedNeverMatches(h, true, after, destination.path, sources[0].name, sources[0].tree);
    var paths := LocalRoots(after, destination, RootsOf(sources)).value;
    ExpectedIsSummary(h, sources, 0);
    NestedNeverMatches(h, false, after, destination.path, sources[0].name, sources[0].tree);
    assert !RootVerified(h, after, paths[0], ForestManifest(sources).entries, 0);
  }

  lemma WrittenVerify(h: Hash, fs: FS, after: FS, umask: Mode, destination: Destination, rootPaths: seq<Path>, sources: seq<Source>)
    requires ValidSources(sources) && WellFormed(after) && |rootPaths| == |sources|
    requires LocalRoots(after, destination, RootsOf(sources)) == Ok(rootPaths)
    requires LaidOver(fs, after, Client, umask, rootPaths, sources)
    ensures PullVerified(h, after, destination, RootsOf(sources), ForestManifest(sources).entries)
    ensures HashedPullVerified(h, after, destination, sources)
  {
    hide LocalRoots, WellFormed, ForestManifest, StatesMatch, Summary, LaidOver;
    forall i | 0 <= i < |rootPaths|
      ensures RootVerified(h, after, rootPaths[i], ForestManifest(sources).entries, i)
      ensures RemoteMatches(h, true, after, rootPaths[i], sources[i].tree)
    {
      ContentsHeld(h, fs, after, umask, rootPaths, sources, i);
      ExpectedIsSummary(h, sources, i);
      LaidHoldsContents(fs, after, Client, umask, rootPaths, sources, i);
      ContentsMatch(h, false, after, rootPaths[i], sources[i].tree);
    }
  }

  lemma ContentsHeld(h: Hash, fs: FS, after: FS, umask: Mode, rootPaths: seq<Path>, sources: seq<Source>, i: nat)
    requires ValidSources(sources) && WellFormed(after) && |rootPaths| == |sources| && i < |sources|
    requires LaidOver(fs, after, Client, umask, rootPaths, sources)
    ensures RemoteMatches(h, true, after, rootPaths[i], sources[i].tree)
  {
    hide LaidOver, RemoteMatches, WellFormed, ValidTree;
    LaidHoldsContents(fs, after, Client, umask, rootPaths, sources, i);
    ContentsMatch(h, true, after, rootPaths[i], sources[i].tree);
  }

  /** For any complete pull: the client's own check of its result succeeds exactly when the pull was not to a new name. */
  lemma CompletedPullVerifiesIff(h: Hash, fs: FS, umask: Mode, destination: Destination, rootPaths: seq<Path>, c: Codec,
                                 sources: seq<Source>, fileReads: seq<seq<ReadBlock>>, tail: seq<Byte>)
    requires Lossless(c) && Fits(c, Metadata(sources)) && Fits(c, PullCompletion(sources))
    requires ValidSources(sources) && sources != [] && Unchanged(sources, fileReads)
    requires WellFormed(fs) && LocalRoots(fs, destination, RootsOf(sources)) == Ok(rootPaths)
    ensures var r := PullClient(fs, umask, destination, c, ReadAll(Wire(PullFrames(c, sources, fileReads)) + tail));
            r.PullDone? ==>
              (PullVerified(h, r.fs, destination, RootsOf(sources), ForestManifest(sources).entries) <==>
               !PulledToNewName(fs, destination, RootsOf(sources))) &&
              (HashedPullVerified(h, r.fs, destination, sources) <==>
               !PulledToNewName(fs, destination, RootsOf(sources)))
  {
    hide *;
    PullRoundTrip(fs, umask, destination, rootPaths, c, sources, fileReads, tail);
    var r := PullClient(fs, umask, destination, c, ReadAll(Wire(PullFrames(c, sources, fileReads)) + tail));
    if r.PullDone? {
      PullVerifiesIff(h, fs, r.fs, umask, destination, rootPaths, sources);
    }
  }
}
