/** The agent's push command from the walk to the verification, in both of its modes. */
module AgentPush {
  import opened Base
  import opened Frames
  import opened Paths
  import opened Trees
  import opened FileSystem
  import opened Manifest
  import opened Decompose
  import opened Overlay
  import opened Receiver
  import opened Roots
  import opened Forest
  import opened Transfer
  import opened Pull
  import opened Push
  import opened Listing
  import opened States
  import opened StagedPush
  import opened StagedTheorems
  import opened StagedOutcomes
  import opened Verification

  datatype AgentError =
    | BadManifest(manifest: ManifestError)
    | Unresolved(resolving: TransferError)
    | Unanswered
    | TransferFailed
    | NotVerified(root: nat)

  /** The local tree seen when a root is verified, and whether the daemon answers. */
  datatype Check = Check(seen: Tree, answered: bool)

  datatype Options = Options(verify: Option<bool>, atomic: bool, ifChanged: bool)

  /** Every root's remote tree matches the local one; no check is asked for when `verify` is none. */
  ghost predicate Verified(h: Hash, fs: FS, verify: Option<bool>, finals: seq<Path>, checks: seq<Check>)
    requires |finals| == |checks|
  {
    verify.Some? ==>
      forall i | 0 <= i < |finals| :: checks[i].answered && RemoteMatches(h, verify.value, fs, finals[i], checks[i].seen)
  }

  /** The verification loop. */
  method VerifyRoots(h: Hash, fs: FS, read: TreeReader, paths: seq<Path>, verify: Option<bool>, finals: seq<Path>, checks: seq<Check>)
    returns (r: Result<(), AgentError>)
    requires WellFormed(fs) && ReadsTrees(read) && |paths| == |finals| == |checks|
    requires forall i | 0 <= i < |checks| :: ValidTree(checks[i].seen)
    ensures r.Ok? <==> Verified(h, fs, verify, finals, checks)
  {
    if verify.None? {
      return Ok(());
    }
    hide RemoteMatches, ReadsTrees, WellFormed, ValidTree;
    for i := 0 to |finals|
      invariant forall k | 0 <= k < i :: checks[k].answered && RemoteMatches(h, verify.value, fs, finals[k], checks[k].seen)
    {
      if !checks[i].answered {
        return Err(Unanswered);
      }
      var matched := RemoteUnchanged(h, verify.value, fs, read, paths[i], checks[i].seen, finals[i]);
      MatchedIsThere(h, verify.value, fs, finals[i], checks[i].seen);
      if matched.Err? || !matched.value {
        return Err(NotVerified(i));
      }
    }
    r := Ok(());
  }

  lemma MatchedIsThere(h: Hash, hashed: bool, fs: FS, p: Path, seen: Tree)
    ensures Stat(fs, p).Err? ==> !RemoteMatches(h, hashed, fs, p, seen)
  {
  }

  /** What a push command does, stage by stage. */
  ghost predicate AgentPushed(h: Hash, fs: FS, after: FS, umask: Mode, sources: seq<Source>, destination: Option<Destination>,
                              o: Options, answered: bool, direct: Attempt, runs: seq<RootRun>, checks: seq<Check>,
                              r: Result<PushSummary, AgentError>)
    requires |sources| == |runs| == |checks| && WellFormed(fs)
  {
    var m := ForestManifest(sources);
    var finals := PredictedRoots(fs, destination, m.roots);
    if !DistinctRootNames(m.roots) || !answered || finals.Err? then r.Err? && after == fs
    else if !o.atomic && !o.ifChanged then
      var pushed := PushBatch(fs, umask, destination, m, direct);
      after == pushed.fs && |finals.value| == |checks| &&
      (r.Ok? <==> pushed.Pushed? && Verified(h, after, o.verify, finals.value, checks)) &&
      (r.Ok? ==> r.value == PushSummary(pushed.entries, pushed.bytes, false))
    else
      Fitting(finals.value, m, runs) &&
      var (last, rs) := PushRoots(h, fs, umask, finals.value, m, o.ifChanged, runs, 0);
      after == last && (r.Ok? <==> NoneFailed(rs) && Verified(h, after, o.verify, finals.value, checks)) &&
      (r.Ok? ==> r.value == PushSummary(Entries(rs), Bytes(rs), o.ifChanged && AllSkipped(rs)))
  }

  /** run_agent_transfer_push */
  method RunAgentTransferPush(disk: Disk, h: Hash, read: TreeReader, sources: seq<Source>, destination: Option<Destination>,
                              o: Options, answered: bool, direct: Attempt, runs: seq<RootRun>, checks: seq<Check>)
    returns (r: Result<PushSummary, AgentError>)
    requires WellFormed(disk.fs) && ReadsTrees(read) && |sources| == |runs| == |checks|
    requires forall i | 0 <= i < |checks| :: ValidTree(checks[i].seen) && ValidTree(runs[i].seen)
    modifies disk
    ensures AgentPushed(h, old(disk.fs), disk.fs, disk.umask, sources, destination, o, answered, direct, runs, checks, r)
  {
    hide ForestTally, PushBatch, PushRoots, RemoteMatches, ReadsTrees, WellFormed, ValidTree, PredictedRoots, RootsOf, PathsOf, DistinctRootNames;
    var built := BuildBatchManifest(sources);
    ManifestRoots(sources);
    if built.Err? {
      return Err(BadManifest(built.error));
    }
    var m := built.value;
    if !answered {
      return Err(Unanswered);
    }
    var resolved := PredictedRoots(disk.fs, destination, m.roots);
    if resolved.Err? {
      return Err(Unresolved(resolved.error));
    }
    var finals := resolved.value;
    RootsFit(disk.fs, destination, sources, runs);
    if !o.atomic && !o.ifChanged {
      r := DirectMode(disk, h, read, destination, m, o, direct, finals, checks);
    } else {
      r := StagedMode(disk, h, read, m, o, finals, runs, checks);
    }
  }

  lemma ManifestRoots(sources: seq<Source>)
    ensures ForestManifest(sources).roots == RootsOf(sources) && |RootsOf(sources)| == |sources|
    ensures |ForestManifest(sources).sources| == |sources|
  {
  }

  lemma RootsFit(fs: FS, destination: Option<Destination>, sources: seq<Source>, runs: seq<RootRun>)
    requires WellFormed(fs) && |sources| == |runs|
    requires PredictedRoots(fs, destination, ForestManifest(sources).roots).Ok?
    ensures Fitting(PredictedRoots(fs, destination, ForestManifest(sources).roots).value, ForestManifest(sources), runs)
  {
    hide PredictedRoots;
    ManifestRoots(sources);
    var base := ResolvedRootsAreSiblings(fs, destination, RootsOf(sources));
  }

  method DirectMode(disk: Disk, h: Hash, read: TreeReader, destination: Option<Destination>, m: BatchManifest, o: Options,
                    direct: Attempt, finals: seq<Path>, checks: seq<Check>) returns (r: Result<PushSummary, AgentError>)
    requires WellFormed(disk.fs) && ReadsTrees(read) && |m.sources| == |finals| == |checks|
    requires forall i | 0 <= i < |checks| :: ValidTree(checks[i].seen)
    modifies disk
    ensures var pushed := PushBatch(old(disk.fs), disk.umask, destination, m, direct);
            disk.fs == pushed.fs &&
            (r.Ok? <==> pushed.Pushed? && Verified(h, disk.fs, o.verify, finals, checks)) &&
            (r.Ok? ==> r.value == PushSummary(pushed.entries, pushed.bytes, false))
  {
    hide *;
    var pushed := PushBatch(disk.fs, disk.umask, destination, m, direct);
    PushLeavesWellFormed(disk.fs, disk.umask, destination, m, direct);
    disk.fs := pushed.fs;
    if pushed.NotPushed? {
      return Err(TransferFailed);
    }
    var verified := VerifyRoots(h, disk.fs, read, m.sources, o.verify, finals, checks);
    if verified.Err? {
      return Err(verified.error);
    }
    r := Ok(PushSummary(pushed.entries, pushed.bytes, false));
  }

  lemma PushLeavesWellFormed(fs: FS, umask: Mode, destination: Option<Destination>, m: BatchManifest, a: Attempt)
    requires WellFormed(fs)
    ensures WellFormed(PushBatch(fs, umask, destination, m, a).fs)
  {
    hide PushBatch, DaemonRoots, WellFormed;
    PushTouchesRoots(fs, umask, destination, m, a);
  }

  method StagedMode(disk: Disk, h: Hash, read: TreeReader, m: BatchManifest, o: Options, finals: seq<Path>,
                    runs: seq<RootRun>, checks: seq<Check>) returns (r: Result<PushSummary, AgentError>)
    requires WellFormed(disk.fs) && ReadsTrees(read) && Fitting(finals, m, runs) && |finals| == |checks|
    requires forall i | 0 <= i < |checks| :: ValidTree(checks[i].seen) && ValidTree(runs[i].seen)
    modifies disk
    ensures var (last, rs) := PushRoots(h, old(disk.fs), disk.umask, finals, m, o.ifChanged, runs, 0);
            disk.fs == last && (r.Ok? <==> NoneFailed(rs) && Verified(h, disk.fs, o.verify, finals, checks)) &&
            (r.Ok? ==> r.value == PushSummary(Entries(rs), Bytes(rs), o.ifChanged && AllSkipped(rs)))
  {
    ghost var fs := disk.fs;
    hide PushRoots, RemoteMatches, ReadsTrees, WellFormed, ValidTree;
    var staged, rs := RunStagedPush(disk, h, read, finals, m, o.ifChanged, runs);
    RunLeavesWellFormed(h, fs, disk.umask, finals, m, o.ifChanged, runs, 0);
    if staged.Err? {
      assert rs[|rs| - 1].FailedAt?;
      return Err(TransferFailed);
    }
    var verified := VerifyRoots(h, disk.fs, read, m.sources, o.verify, finals, checks);
    if verified.Err? {
      return Err(verified.error);
    }
    r := Ok(staged.value);
  }

  lemma {:induction false} RunLeavesWellFormed(h: Hash, fs: FS, umask: Mode, finals: seq<Path>, m: BatchManifest, ifChanged: bool,
                                               runs: seq<RootRun>, i: nat)
    requires WellFormed(fs) && Fitting(finals, m, runs) && i <= |finals|
    ensures WellFormed(PushRoots(h, fs, umask, finals, m, ifChanged, runs, i).0)
    decreases |finals| - i
  {
    hide PushRoot, SingleRoot, WellFormed;
    if i < |finals| {
      PushRootKeepsWellFormed(h, fs, umask, finals[i], i, SingleRoot(m, i), ifChanged, runs[i]);
      var (next, r) := PushRoot(h, fs, umask, finals[i], i, SingleRoot(m, i), ifChanged, runs[i]);
      RunLeavesWellFormed(h, next, umask, finals, m, ifChanged, runs, i + 1);
    }
  }

  // ---------------------------------------------------------------------
  // Verification never fails a good push
  // ---------------------------------------------------------------------

  ghost predicate ChecksUnchanged(sources: seq<Source>, checks: seq<Check>) {
    |sources| == |checks| && forall i | 0 <= i < |sources| :: checks[i].answered && checks[i].seen == sources[i].tree
  }

  /**
   The direct push command, sources unchanged and requests coming through: it succeeds exactly when nothing is in
   the forest's way - verified or not - and then the forest lies over the remote file system.
   */
  lemma DirectCommand(h: Hash, fs: FS, after: FS, umask: Mode, sources: seq<Source>, destination: Option<Destination>,
                      o: Options, direct: Attempt, runs: seq<RootRun>, checks: seq<Check>, r: Result<PushSummary, AgentError>)
    requires |sources| == |runs| == |checks| && sources != [] && ValidSources(sources) && WellFormed(fs) && !o.atomic && !o.ifChanged
    requires ChecksUnchanged(sources, checks) && Unchanged(sources, direct.fileReads)
    requires direct.reached && direct.acked && |Wire(PushStream(ForestManifest(sources), direct.fileReads))| <= direct.delivered
    requires DistinctRootNames(RootsOf(sources)) && PredictedRoots(fs, destination, RootsOf(sources)).Ok?
    requires AgentPushed(h, fs, after, umask, sources, destination, o, true, direct, runs, checks, r)
    ensures var finals := PredictedRoots(fs, destination, RootsOf(sources)).value;
            |finals| == |sources| && (r.Ok? <==> ClearWay(fs, finals, sources)) &&
            (r.Ok? ==> LaidOver(fs, after, Daemon, umask, finals, sources) &&
                       r.value == PushSummary(|ForestManifest(sources).entries|, ForestManifest(sources).totalBytes, false))
  {
    hide *;
    var finals := PredictedRoots(fs, destination, RootsOf(sources)).value;
    ManifestRoots(sources);
    PredictionMatchesDaemon(fs, destination, RootsOf(sources));
    PushRoundTrip(fs, umask, destination, finals, sources, direct);
    DirectMeans(h, fs, after, umask, sources, destination, o, direct, runs, checks, r);
    var pushed := PushBatch(fs, umask, destination, ForestManifest(sources), direct);
    if pushed.Pushed? {
      if o.verify.Some? {
        DirectPushVerifies(h, o.verify.value, fs, after, umask, finals, sources);
      }
      ChecksPass(h, after, o.verify, finals, sources, checks);
    }
  }

  lemma DirectMeans(h: Hash, fs: FS, after: FS, umask: Mode, sources: seq<Source>, destination: Option<Destination>,
                    o: Options, direct: Attempt, runs: seq<RootRun>, checks: seq<Check>, r: Result<PushSummary, AgentError>)
    requires |sources| == |runs| == |checks| && WellFormed(fs) && !o.atomic && !o.ifChanged
    requires ForestManifest(sources).roots == RootsOf(sources)
    requires DistinctRootNames(RootsOf(sources)) && PredictedRoots(fs, destination, RootsOf(sources)).Ok?
    requires AgentPushed(h, fs, after, umask, sources, destination, o, true, direct, runs, checks, r)
    ensures var pushed, finals := PushBatch(fs, umask, destination, ForestManifest(sources), direct),
                                  PredictedRoots(fs, destination, RootsOf(sources)).value;
            after == pushed.fs && |finals| == |checks| &&
            (r.Ok? <==> pushed.Pushed? && Verified(h, after, o.verify, finals, checks)) &&
            (r.Ok? ==> r.value == PushSummary(pushed.entries, pushed.bytes, false))
  {
    hide PushBatch, PredictedRoots, ForestManifest, Verified, WellFormed, PushRoots;
  }

  lemma ChecksPass(h: Hash, after: FS, verify: Option<bool>, finals: seq<Path>, sources: seq<Source>, checks: seq<Check>)
    requires |finals| == |sources| && ChecksUnchanged(sources, checks)
    requires verify.Some? ==> forall i | 0 <= i < |finals| :: RemoteMatches(h, verify.value, after, finals[i], sources[i].tree)
    ensures Verified(h, after, verify, finals, checks)
  {
    hide RemoteMatches;
  }

  /** The staged push command: verification never turns a successful run into a failure. */
  lemma StagedCommand(h: Hash, fs: FS, after: FS, umask: Mode, base: Path, finals: seq<Path>, sources: seq<Source>,
                      destination: Option<Destination>, o: Options, direct: Attempt, runs: seq<RootRun>, checks: seq<Check>,
                      r: Result<PushSummary, AgentError>)
    requires |sources| == |runs| == |checks| && WellFormed(fs) && (o.atomic || o.ifChanged)
    requires ChecksUnchanged(sources, checks) && SeenUnchanged(sources, runs)
    requires DistinctRootNames(RootsOf(sources)) && PredictedRoots(fs, destination, RootsOf(sources)) == Ok(finals)
    requires StagingReady(fs, base, finals, sources, runs)
    requires AgentPushed(h, fs, after, umask, sources, destination, o, true, direct, runs, checks, r)
    ensures |finals| == |sources|
    ensures r.Ok? <==> AllGoWell(h, fs, finals, sources, o.ifChanged, runs, 0)
  {
    hide *;
    ManifestRoots(sources);
    ReadyMeans(fs, base, finals, sources, runs);
    ReadyParts(fs, base, finals, sources, runs);
    StagedMeans(h, fs, after, umask, finals, sources, destination, o, direct, runs, checks, r);
    StagedPushSucceedsIff(h, fs, umask, base, finals, sources, o.ifChanged, runs, 0);
    if NoneFailed(PushRoots(h, fs, umask, finals, ForestManifest(sources), o.ifChanged, runs, 0).1) {
      if o.verify.Some? {
        StagedPushVerifies(h, o.verify.value, fs, umask, base, finals, sources, o.ifChanged, runs);
      }
      ChecksPass(h, after, o.verify, finals, sources, checks);
    }
  }

  lemma ReadyParts(fs: FS, base: Path, finals: seq<Path>, sources: seq<Source>, runs: seq<RootRun>)
    requires StagingReady(fs, base, finals, sources, runs)
    ensures Siblings(finals, base) && UnchangedRun(sources, runs) && |finals| == |runs|
    ensures forall j | 0 <= j < |finals| :: finals[j] != []
    ensures FreshStaging(fs, finals, runs, 0)
  {
  }

  lemma StagedMeans(h: Hash, fs: FS, after: FS, umask: Mode, finals: seq<Path>, sources: seq<Source>,
                    destination: Option<Destination>, o: Options, direct: Attempt, runs: seq<RootRun>, checks: seq<Check>,
                    r: Result<PushSummary, AgentError>)
    requires |sources| == |runs| == |checks| && WellFormed(fs) && (o.atomic || o.ifChanged)
    requires ForestManifest(sources).roots == RootsOf(sources) && Fitting(finals, ForestManifest(sources), runs)
    requires DistinctRootNames(RootsOf(sources)) && PredictedRoots(fs, destination, RootsOf(sources)) == Ok(finals)
    requires AgentPushed(h, fs, after, umask, sources, destination, o, true, direct, runs, checks, r)
    ensures |finals| == |checks|
    ensures var (last, rs) := PushRoots(h, fs, umask, finals, ForestManifest(sources), o.ifChanged, runs, 0);
            after == last && (r.Ok? <==> NoneFailed(rs) && Verified(h, after, o.verify, finals, checks))
  {
    hide PushBatch, PredictedRoots, ForestManifest, Verified, WellFormed, PushRoots;
  }
}
