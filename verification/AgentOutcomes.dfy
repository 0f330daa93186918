/** What a push command with each of its options leaves, whether it succeeds or not. */
module AgentOutcomes {
  import opened Base
  import opened Frames
  import opened Paths
  import opened Trees
  import opened FileSystem
  import opened FileOps
  import opened Manifest
  import opened Decompose
  import opened Overlay
  import opened Roots
  import opened Unpack
  import opened Forest
  import opened Pull
  import opened Push
  import opened Listing
  import opened States
  import opened Staging
  import opened StagedPush
  import opened StagedTheorems
  import opened StagedOutcomes
  import opened Verification
  import opened AgentPush

  /** A root was replaced by an exact copy of its source. */
  ghost predicate IsReplaced(after: FS, umask: Mode, final: Path, source: Source) {
    HoldsCopy(after, final, umask, source.tree)
  }

  /** A root was left as it was. */
  ghost predicate IsKept(fs: FS, after: FS, final: Path) {
    SameBelow(fs, after, final)
  }

  /** Root `i` matched the local tree, hashes included, before the push. */
  ghost predicate Matched(h: Hash, fs: FS, final: Path, run: RootRun) {
    RemoteMatches(h, true, fs, final, run.seen)
  }

  lemma RunStages(h: Hash, fs: FS, umask: Mode, finals: seq<Path>, m: BatchManifest, ifChanged: bool, runs: seq<RootRun>, i: nat)
    requires Fitting(finals, m, runs) && i <= |finals|
    ensures i == |finals| ==> PushRoots(h, fs, umask, finals, m, ifChanged, runs, i) == (fs, [])
    ensures i < |finals| ==>
              finals[i] != [] && i < |m.sources| && i < |m.roots| && i < |runs| &&
              var (next, r) := PushRoot(h, fs, umask, finals[i], i, SingleRoot(m, i), ifChanged, runs[i]);
              var rest := PushRoots(h, next, umask, finals, m, ifChanged, runs, i + 1);
              PushRoots(h, fs, umask, finals, m, ifChanged, runs, i) ==
              if r.FailedAt? then (next, [r]) else (rest.0, [r] + rest.1)
  {
    hide PushRoot, SingleRoot;
  }

  lemma OneSkips(h: Hash, fs: FS, umask: Mode, final: Path, index: nat, one: BatchManifest, ifChanged: bool, run: RootRun)
    requires final != []
    ensures var (next, r) := PushRoot(h, fs, umask, final, index, one, ifChanged, run);
            r.Skipped? ==> ifChanged && next == fs
  {
    hide RemoteMatches, PushBatch, Move, Rm, StagedPath;
  }

  lemma {:induction false} NoSkips(h: Hash, fs: FS, umask: Mode, finals: seq<Path>, m: BatchManifest, runs: seq<RootRun>, i: nat)
    requires Fitting(finals, m, runs) && i <= |finals|
    ensures forall k | 0 <= k < |PushRoots(h, fs, umask, finals, m, false, runs, i).1| ::
              !PushRoots(h, fs, umask, finals, m, false, runs, i).1[k].Skipped?
    decreases |finals| - i
  {
    hide *;
    RunStages(h, fs, umask, finals, m, false, runs, i);
    if i < |finals| {
      OneSkips(h, fs, umask, finals[i], i, SingleRoot(m, i), false, runs[i]);
      var (next, r) := PushRoot(h, fs, umask, finals[i], i, SingleRoot(m, i), false, runs[i]);
      if !r.FailedAt? {
        NoSkips(h, next, umask, finals, m, runs, i + 1);
      }
    }
  }

  /** If everything is skipped, nothing changes. */
  lemma {:induction false} AllSkippedKeeps(h: Hash, fs: FS, umask: Mode, finals: seq<Path>, m: BatchManifest, ifChanged: bool,
                                           runs: seq<RootRun>, i: nat)
    requires Fitting(finals, m, runs) && i <= |finals|
    ensures AllSkipped(PushRoots(h, fs, umask, finals, m, ifChanged, runs, i).1) ==>
              PushRoots(h, fs, umask, finals, m, ifChanged, runs, i).0 == fs
    decreases |finals| - i
  {
    hide *;
    RunStages(h, fs, umask, finals, m, ifChanged, runs, i);
    if i < |finals| {
      OneSkips(h, fs, umask, finals[i], i, SingleRoot(m, i), ifChanged, runs[i]);
      var (next, r) := PushRoot(h, fs, umask, finals[i], i, SingleRoot(m, i), ifChanged, runs[i]);
      var later := PushRoots(h, next, umask, finals, m, ifChanged, runs, i + 1).1;
      AllSkippedCons(r, later);
      AllSkippedCons(r, []);
      assert [r] + [] == [r];
      if !r.FailedAt? {
        AllSkippedKeeps(h, next, umask, finals, m, ifChanged, runs, i + 1);
      }
    }
  }

  lemma AllSkippedCons(r: RootResult, later: seq<RootResult>)
    ensures AllSkipped([r] + later) <==> r.Skipped? && AllSkipped(later)
  {
    assert forall k | 0 <= k < |later| :: ([r] + later)[k + 1] == later[k];
    assert ([r] + later)[0] == r;
  }

  /**
   With `atomic` or `ifChanged` a push command stages. When it succeeds, every root is exactly a copy of its source,
   whatever it held before - or, with `ifChanged`, it matched and is untouched - and nothing else has changed but for
   missing directories. With `atomic` alone nothing is skipped. When it fails, every root is a copy or as it was.
   */
  lemma StagingCommandLeaves(h: Hash, fs: FS, after: FS, umask: Mode, base: Path, finals: seq<Path>, sources: seq<Source>,
                             destination: Option<Destination>, o: AgentPush.Options, direct: Attempt, runs: seq<RootRun>,
                             checks: seq<Check>, r: Result<PushSummary, AgentError>)
    requires |sources| == |runs| == |checks| && WellFormed(fs) && (o.atomic || o.ifChanged)
    requires DistinctRootNames(RootsOf(sources)) && PredictedRoots(fs, destination, RootsOf(sources)) == Ok(finals)
    requires StagingReady(fs, base, finals, sources, runs)
    requires AgentPushed(h, fs, after, umask, sources, destination, o, true, direct, runs, checks, r)
    ensures |finals| == |sources|
    ensures r.Ok? ==>
              (forall i | 0 <= i < |finals| ::
                 IsReplaced(after, umask, finals[i], sources[i]) ||
                 (o.ifChanged && Matched(h, fs, finals[i], runs[i]) && IsKept(fs, after, finals[i]))) &&
              (!o.ifChanged ==> forall i | 0 <= i < |finals| :: IsReplaced(after, umask, finals[i], sources[i])) &&
              (forall q | (forall i | 0 <= i < |finals| :: !(finals[i] <= q)) :: SameOrNewDir(fs, after, umask, base, q))
    ensures r.Err? ==>
              forall i | 0 <= i < |finals| ::
                IsReplaced(after, umask, finals[i], sources[i]) || IsKept(fs, after, finals[i])
    ensures r.Ok? && r.value.skipped ==>
              o.ifChanged && after == fs && forall i | 0 <= i < |finals| :: Matched(h, fs, finals[i], runs[i])
  {
    hide *;
    ManifestRoots(sources);
    ReadyMeans(fs, base, finals, sources, runs);
    StagedMeans(h, fs, after, umask, finals, sources, destination, o, direct, runs, checks, r);
    StagedSummary(h, fs, after, umask, finals, sources, destination, o, direct, runs, checks, r);
    var m := ForestManifest(sources);
    StagedPushLeaves(h, fs, umask, base, finals, sources, o.ifChanged, runs);
    EffectsMean(h, fs, after, umask, finals, sources, runs, PushRoots(h, fs, umask, finals, m, o.ifChanged, runs, 0).1);
    if r.Ok? {
      StagedPushReplaces(h, fs, umask, base, finals, sources, o.ifChanged, runs);
      ResultsMean(h, fs, after, umask, finals, sources, runs, PushRoots(h, fs, umask, finals, m, o.ifChanged, runs, 0).1);
      AllSkippedKeeps(h, fs, umask, finals, m, o.ifChanged, runs, 0);
      if !o.ifChanged {
        NoSkips(h, fs, umask, finals, m, runs, 0);
      }
      SkippedMeans(PushRoots(h, fs, umask, finals, m, o.ifChanged, runs, 0).1);
    }
  }

  lemma SkippedMeans(rs: seq<RootResult>)
    ensures AllSkipped(rs) <==> forall i | 0 <= i < |rs| :: rs[i].Skipped?
  {
  }

  lemma StagedSummary(h: Hash, fs: FS, after: FS, umask: Mode, finals: seq<Path>, sources: seq<Source>,
                      destination: Option<Destination>, o: AgentPush.Options, direct: Attempt, runs: seq<RootRun>, checks: seq<Check>,
                      r: Result<PushSummary, AgentError>)
    requires |sources| == |runs| == |checks| && WellFormed(fs) && (o.atomic || o.ifChanged)
    requires ForestManifest(sources).roots == RootsOf(sources) && Fitting(finals, ForestManifest(sources), runs)
    requires DistinctRootNames(RootsOf(sources)) && PredictedRoots(fs, destination, RootsOf(sources)) == Ok(finals)
    requires AgentPushed(h, fs, after, umask, sources, destination, o, true, direct, runs, checks, r)
    ensures var rs := PushRoots(h, fs, umask, finals, ForestManifest(sources), o.ifChanged, runs, 0).1;
            r.Ok? ==> r.value == PushSummary(Entries(rs), Bytes(rs), o.ifChanged && AllSkipped(rs))
  {
    hide PushBatch, PredictedRoots, ForestManifest, Verified, WellFormed, PushRoots;
  }

  lemma EffectsMean(h: Hash, fs: FS, after: FS, umask: Mode, finals: seq<Path>, sources: seq<Source>, runs: seq<RootRun>,
                    rs: seq<RootResult>)
    requires |finals| == |sources| == |runs|
    requires forall i | 0 <= i < |finals| :: RootEffect(h, fs, after, umask, finals[i], sources[i].tree, runs[i], ResultAt(rs, i))
    ensures forall i | 0 <= i < |finals| ::
              IsReplaced(after, umask, finals[i], sources[i]) || IsKept(fs, after, finals[i])
  {
    hide HoldsCopy, SameBelow, RemoteMatches;
    forall i | 0 <= i < |finals|
      ensures IsReplaced(after, umask, finals[i], sources[i]) || IsKept(fs, after, finals[i])
    {
      assert RootEffect(h, fs, after, umask, finals[i], sources[i].tree, runs[i], ResultAt(rs, i));
    }
  }

  lemma ResultsMean(h: Hash, fs: FS, after: FS, umask: Mode, finals: seq<Path>, sources: seq<Source>, runs: seq<RootRun>,
                    rs: seq<RootResult>)
    requires |finals| == |sources| == |runs| == |rs|
    requires forall i | 0 <= i < |rs| ::
               match rs[i]
               case Uploaded(_, _) => HoldsCopy(after, finals[i], umask, sources[i].tree)
               case Skipped => SameBelow(fs, after, finals[i]) && RemoteMatches(h, true, fs, finals[i], runs[i].seen)
               case FailedAt(_) => false
    ensures forall i | 0 <= i < |rs| ::
              if rs[i].Skipped? then Matched(h, fs, finals[i], runs[i]) && IsKept(fs, after, finals[i])
              else IsReplaced(after, umask, finals[i], sources[i])
  {
    hide HoldsCopy, SameBelow, RemoteMatches;
  }

  /** With `atomic` alone the command reports the whole manifest, as a direct push does. */
  lemma AtomicCommandCounts(h: Hash, fs: FS, after: FS, umask: Mode, base: Path, finals: seq<Path>, sources: seq<Source>,
                            destination: Option<Destination>, o: AgentPush.Options, direct: Attempt, runs: seq<RootRun>,
                            checks: seq<Check>, r: Result<PushSummary, AgentError>)
    requires |sources| == |runs| == |checks| && WellFormed(fs) && o.atomic && !o.ifChanged && ValidSources(sources)
    requires DistinctRootNames(RootsOf(sources)) && PredictedRoots(fs, destination, RootsOf(sources)) == Ok(finals)
    requires StagingReady(fs, base, finals, sources, runs)
    requires AgentPushed(h, fs, after, umask, sources, destination, o, true, direct, runs, checks, r)
    ensures r.Ok? ==>
              r.value == PushSummary(|ForestManifest(sources).entries|, ForestManifest(sources).totalBytes, false)
  {
    hide *;
    ManifestRoots(sources);
    ReadyMeans(fs, base, finals, sources, runs);
    StagedMeans(h, fs, after, umask, finals, sources, destination, o, direct, runs, checks, r);
    StagedSummary(h, fs, after, umask, finals, sources, destination, o, direct, runs, checks, r);
    NoSkips(h, fs, umask, finals, ForestManifest(sources), runs, 0);
    StagedTotals(h, fs, umask, base, finals, sources, false, runs);
  }

  /**
   Without either option the command pushes in place: it succeeds only with the forest laid over what was there, and
   however it ends it touches nothing but the roots.
   */
  lemma PlainCommandLays(h: Hash, fs: FS, after: FS, umask: Mode, sources: seq<Source>, destination: Option<Destination>,
                         o: AgentPush.Options, direct: Attempt, runs: seq<RootRun>, checks: seq<Check>, r: Result<PushSummary, AgentError>)
    requires |sources| == |runs| == |checks| && sources != [] && ValidSources(sources) && WellFormed(fs)
    requires !o.atomic && !o.ifChanged && Unchanged(sources, direct.fileReads)
    requires direct.reached && direct.acked && |Wire(PushStream(ForestManifest(sources), direct.fileReads))| <= direct.delivered
    requires DistinctRootNames(RootsOf(sources)) && PredictedRoots(fs, destination, RootsOf(sources)).Ok?
    requires AgentPushed(h, fs, after, umask, sources, destination, o, true, direct, runs, checks, r)
    ensures var finals := PredictedRoots(fs, destination, RootsOf(sources)).value;
            |finals| == |sources| &&
            (r.Ok? ==> ClearWay(fs, finals, sources) && LaidOver(fs, after, Daemon, umask, finals, sources)) &&
            OnlyRootsTouched(fs, after, umask, finals)
  {
    hide *;
    var finals := PredictedRoots(fs, destination, RootsOf(sources)).value;
    ManifestRoots(sources);
    PredictionMatchesDaemon(fs, destination, RootsOf(sources));
    PushRoundTrip(fs, umask, destination, finals, sources, direct);
    DirectMeans(h, fs, after, umask, sources, destination, o, direct, runs, checks, r);
    PushTouchesRoots(fs, umask, destination, ForestManifest(sources), direct);
  }

  /** What was asked to be verified is verified, with or without hashes, or the command fails. */
  lemma VerifiedMeans(h: Hash, fs: FS, after: FS, umask: Mode, sources: seq<Source>, destination: Option<Destination>,
                      o: AgentPush.Options, direct: Attempt, runs: seq<RootRun>, checks: seq<Check>, r: Result<PushSummary, AgentError>)
    requires |sources| == |runs| == |checks| && WellFormed(fs)
    requires AgentPushed(h, fs, after, umask, sources, destination, o, true, direct, runs, checks, r)
    ensures r.Ok? && o.verify.Some? ==>
              PredictedRoots(fs, destination, RootsOf(sources)).Ok? &&
              var finals := PredictedRoots(fs, destination, RootsOf(sources)).value;
              |finals| == |checks| &&
              forall i | 0 <= i < |finals| :: checks[i].answered && RemoteMatches(h, o.verify.value, after, finals[i], checks[i].seen)
  {
    hide PushBatch, PredictedRoots, WellFormed, PushRoots, RemoteMatches, ForestTally;
    ManifestRoots(sources);
  }

  /**
   A staged push of one file or directory to an existing directory puts the copy into it, under the source's name, and
   leaves everything else in it and elsewhere as it was.
   */
  lemma StagingIntoDirectory(h: Hash, fs: FS, after: FS, umask: Mode, d: Path, source: Source, o: AgentPush.Options,
                             direct: Attempt, run: RootRun, check: Check, r: Result<PushSummary, AgentError>)
    requires WellFormed(fs) && IsDir(fs, d) && o.atomic && !o.ifChanged
    requires StagingReady(fs, d, [d + [source.name]], [source], [run])
    requires AgentPushed(h, fs, after, umask, [source], Some(Destination(d, false)), o, true, direct, [run], [check], r)
    ensures r.Ok? ==> IsReplaced(after, umask, d + [source.name], source)
    ensures r.Ok? ==> forall q: Path | !(d + [source.name] <= q) :: Get(after, q) == Get(fs, q)
  {
    hide *;
    var final := d + [source.name];
    OneRoot(fs, d, source);
    StagingCommandLeaves(h, fs, after, umask, d, [final], [source], Some(Destination(d, false)), o, direct, [run], [check], r);
    if r.Ok? {
      assert IsReplaced(after, umask, [final][0], [source][0]);
      forall q: Path | !(final <= q)
        ensures Get(after, q) == Get(fs, q)
      {
        assert forall i | 0 <= i < |[final]| :: !([final][i] <= q);
        NothingNewAbove(fs, after, umask, d, q);
      }
    }
  }

  lemma OneRoot(fs: FS, d: Path, source: Source)
    requires WellFormed(fs) && IsDir(fs, d)
    ensures DistinctRootNames(RootsOf([source]))
    ensures PredictedRoots(fs, Some(Destination(d, false)), RootsOf([source])) == Ok([d + [source.name]])
  {
    hide PredictedRoots, LocalRoots, DaemonRoots;
    assert RootsOf([source]) == [RootOf(source)];
    OneRootResolves(fs, Destination(d, false), RootOf(source));
  }

  lemma NothingNewAbove(fs: FS, after: FS, umask: Mode, d: Path, q: Path)
    requires WellFormed(fs) && IsDir(fs, d) && SameOrNewDir(fs, after, umask, d, q)
    ensures Get(after, q) == Get(fs, q)
  {
    if q <= d && q != d {
      PrefixesAreDirs(fs, d, q);
    }
  }
}
