/** The main results about staged pushes: what success, failure and repetition leave. */
module StagedOutcomes {
  import opened Base
  import opened Paths
  import opened Trees
  import opened FileSystem
  import opened Manifest
  import opened Decompose
  import opened Roots
  import opened Overlay
  import opened Forest
  import opened Push
  import opened Listing
  import opened States
  import opened Staging
  import opened StagedPush
  import opened StagedTheorems

  /** A run over resolved roots, unchanging sources and staging paths that do not exist. */
  ghost predicate StagingReady(fs: FS, base: Path, finals: seq<Path>, sources: seq<Source>, runs: seq<RootRun>) {
    WellFormed(fs) && Siblings(finals, base) && UnchangedRun(sources, runs) &&
    Fitting(finals, ForestManifest(sources), runs) && FreshStaging(fs, finals, runs, 0)
  }

  /** Wherever the roots resolve to, they stand side by side in one directory. */
  lemma ResolvedRootsAreSiblings(fs: FS, destination: Option<Destination>, roots: seq<TransferRoot>) returns (base: Path)
    requires WellFormed(fs) && PredictedRoots(fs, destination, roots).Ok?
    ensures |PredictedRoots(fs, destination, roots).value| == |roots|
    ensures Siblings(PredictedRoots(fs, destination, roots).value, base)
  {
    hide WellFormed, StatText;
    var finals := PredictedRoots(fs, destination, roots).value;
    RepeatedNameNone(roots, {});
    base := destination.value.path;
    if |roots| == 1 && finals[0] == destination.value.path {
      NotTheRoot(fs, destination.value, roots);
      base := Parent(destination.value.path);
    } else {
      forall i | 0 <= i < |finals|
        ensures finals[i] != [] && Parent(finals[i]) == base && finals[i][|base|] == roots[i].sourceName
      {
      }
    }
  }

  /** Only a destination that is no directory is itself the root path, so it is not the root directory. */
  lemma NotTheRoot(fs: FS, destination: Destination, roots: seq<TransferRoot>)
    requires WellFormed(fs) && |roots| == 1 && PredictedRoots(fs, Some(destination), roots) == Ok([destination.path])
    ensures destination.path != []
  {
  }

  ghost predicate NothingAt(fs: FS, p: Path) {
    forall rel: Path :: p + rel !in fs
  }

  // ---------------------------------------------------------------------
  // What is left
  // ---------------------------------------------------------------------

  /**
   Unless the clean-up itself was lost, every root is either an exact copy of its source or as it was before, no
   staging path is left, and everywhere else at most missing directories above the roots are new.
   */
  lemma StagedPushLeaves(h: Hash, fs: FS, umask: Mode, base: Path, finals: seq<Path>, sources: seq<Source>,
                         ifChanged: bool, runs: seq<RootRun>)
    requires StagingReady(fs, base, finals, sources, runs)
    ensures var (after, rs) := PushRoots(h, fs, umask, finals, ForestManifest(sources), ifChanged, runs, 0);
            |rs| <= |finals| == |sources| == |runs| && WellFormed(after) && (NoneFailed(rs) ==> |rs| == |finals|) &&
            (forall k | 0 <= k < |rs| - 1 :: !rs[k].FailedAt?) &&
            (forall i | 0 <= i < |finals| ::
               RootEffect(h, fs, after, umask, finals[i], sources[i].tree, runs[i], ResultAt(rs, i))) &&
            ((rs != [] ==> !MayLeave(rs[|rs| - 1], runs[|rs| - 1])) ==>
               (forall i | 0 <= i < |finals| :: finals[i] != [] && NothingAt(after, TempOf(finals, runs, i))) &&
               forall q | (forall i | 0 <= i < |finals| :: !(finals[i] <= q)) :: SameOrNewDir(fs, after, umask, base, q))
  {
    hide PushRoots, ForestManifest, WellFormed, RootEffect, SourceUnchanged, UploadedInFull, TempOf;
    FittingSizes(finals, sources, runs);
    RunEffectHolds(h, fs, umask, base, finals, sources, ifChanged, runs, 0);
    var (after, rs) := PushRoots(h, fs, umask, finals, ForestManifest(sources), ifChanged, runs, 0);
    forall i | 0 <= i < |finals|
      ensures RootEffect(h, fs, after, umask, finals[i], sources[i].tree, runs[i], ResultAt(rs, i))
    {
      assert RootEffect(h, fs, after, umask, finals[i], sources[i].tree, runs[i], ResultAt(rs, i - 0));
    }
    if rs != [] ==> !MayLeave(rs[|rs| - 1], runs[|rs| - 1]) {
      forall q | forall i | 0 <= i < |finals| :: !(finals[i] <= q)
        ensures SameOrNewDir(fs, after, umask, base, q)
      {
        assert Elsewhere(finals, runs, 0, rs, q);
      }
      forall i | 0 <= i < |finals|
        ensures finals[i] != [] && NothingAt(after, TempOf(finals, runs, i))
      {
        NoStagingLeft(fs, after, umask, base, finals, runs, i);
      }
    }
  }

  lemma NoStagingLeft(fs: FS, after: FS, umask: Mode, base: Path, finals: seq<Path>, runs: seq<RootRun>, i: nat)
    requires |finals| == |runs| && WellFormed(fs) && Siblings(finals, base) && FreshStaging(fs, finals, runs, 0) && i < |finals|
    requires forall q | (forall i | 0 <= i < |finals| :: !(finals[i] <= q)) :: SameOrNewDir(fs, after, umask, base, q)
    ensures NothingAt(after, TempOf(finals, runs, i))
  {
    hide TempOf, WellFormed;
    var temp := TempOf(finals, runs, i);
    OneLevel(finals, runs, base, i);
    assert temp !in fs && temp !in finals;
    forall rel: Path
      ensures temp + rel !in after
    {
      var q := temp + rel;
      assert temp <= q && !(q <= base);
      NothingBelow(fs, temp, rel);
      forall j | 0 <= j < |finals|
        ensures !(finals[j] <= q)
      {
        OneLevel(finals, runs, base, j);
        ApartBelow(temp, finals[j], q);
      }
      assert SameOrNewDir(fs, after, umask, base, q);
    }
  }

  /**
   A successful staged push: every uploaded root is exactly a copy of its source, extras gone, modes too unless one
   is zero; every skipped one matched and is untouched; nothing is left at the staging paths.
   */
  lemma StagedPushReplaces(h: Hash, fs: FS, umask: Mode, base: Path, finals: seq<Path>, sources: seq<Source>,
                           ifChanged: bool, runs: seq<RootRun>)
    requires StagingReady(fs, base, finals, sources, runs)
    requires NoneFailed(PushRoots(h, fs, umask, finals, ForestManifest(sources), ifChanged, runs, 0).1)
    ensures var (after, rs) := PushRoots(h, fs, umask, finals, ForestManifest(sources), ifChanged, runs, 0);
            |rs| == |finals| == |sources| == |runs| && WellFormed(after) &&
            (forall i | 0 <= i < |rs| ::
               finals[i] != [] && NothingAt(after, TempOf(finals, runs, i)) &&
               match rs[i]
               case Uploaded(_, _) =>
                 HoldsCopy(after, finals[i], umask, sources[i].tree) &&
                 (ModesSet(sources[i].tree) ==> Holds(after, finals[i], sources[i].tree))
               case Skipped =>
                 SameBelow(fs, after, finals[i]) && RemoteMatches(h, true, fs, finals[i], runs[i].seen)
               case FailedAt(_) => false) &&
            forall q | (forall i | 0 <= i < |finals| :: !(finals[i] <= q)) :: SameOrNewDir(fs, after, umask, base, q)
  {
    hide PushRoots, ForestManifest, WellFormed, SourceUnchanged, TempOf, HoldsCopy, SameBelow, RemoteMatches, NothingAt, SameOrNewDir;
    hide ModesSet, Holds;
    StagedPushLeaves(h, fs, umask, base, finals, sources, ifChanged, runs);
    var (after, rs) := PushRoots(h, fs, umask, finals, ForestManifest(sources), ifChanged, runs, 0);
    forall i | 0 <= i < |rs|
      ensures rs[i].Uploaded? ==> HoldsCopy(after, finals[i], umask, sources[i].tree)
      ensures rs[i].Uploaded? && ModesSet(sources[i].tree) ==> Holds(after, finals[i], sources[i].tree)
      ensures rs[i].Skipped? ==> SameBelow(fs, after, finals[i]) && RemoteMatches(h, true, fs, finals[i], runs[i].seen)
    {
      assert RootEffect(h, fs, after, umask, finals[i], sources[i].tree, runs[i], ResultAt(rs, i));
      if rs[i].Uploaded? && ModesSet(sources[i].tree) {
        CopyWithModesIsExact(after, finals[i], umask, sources[i].tree);
      }
    }
  }

  /**
   An upload error at some root whose clean-up gets through: the roots before it are replaced or, if they were
   skipped, as they were; it and the roots after it are untouched; no staging path is left.
   */
  lemma UploadErrorLeaves(h: Hash, fs: FS, umask: Mode, base: Path, finals: seq<Path>, sources: seq<Source>,
                          ifChanged: bool, runs: seq<RootRun>, at: nat)
    requires StagingReady(fs, base, finals, sources, runs)
    requires var rs := PushRoots(h, fs, umask, finals, ForestManifest(sources), ifChanged, runs, 0).1;
             at < |rs| && at < |runs| && rs[at] == FailedAt(Uploading) && runs[at].cleanupReached
    ensures var (after, rs) := PushRoots(h, fs, umask, finals, ForestManifest(sources), ifChanged, runs, 0);
            |rs| == at + 1 <= |finals| == |sources| && WellFormed(after) &&
            (forall i | 0 <= i < |finals| ::
               finals[i] != [] && NothingAt(after, TempOf(finals, runs, i)) &&
               if i < at && rs[i].Uploaded? then HoldsCopy(after, finals[i], umask, sources[i].tree)
               else SameBelow(fs, after, finals[i]) && (i < at ==> rs[i].Skipped?)) &&
            forall q | (forall i | 0 <= i < |finals| :: !(finals[i] <= q)) :: SameOrNewDir(fs, after, umask, base, q)
  {
    hide PushRoots, ForestManifest, WellFormed, SourceUnchanged, TempOf, HoldsCopy, SameBelow, RemoteMatches, NothingAt, SameOrNewDir;
    StagedPushLeaves(h, fs, umask, base, finals, sources, ifChanged, runs);
    var (after, rs) := PushRoots(h, fs, umask, finals, ForestManifest(sources), ifChanged, runs, 0);
    assert at == |rs| - 1;
    forall i | 0 <= i < |finals|
      ensures if i < at && rs[i].Uploaded? then HoldsCopy(after, finals[i], umask, sources[i].tree)
              else SameBelow(fs, after, finals[i])
    {
      assert RootEffect(h, fs, after, umask, finals[i], sources[i].tree, runs[i], ResultAt(rs, i));
    }
  }

  // ---------------------------------------------------------------------
  // When it succeeds, and what it reports
  // ---------------------------------------------------------------------

  /** Nothing stands in a root's way and every request about it comes through. */
  ghost predicate RootGoesWell(h: Hash, fs: FS, final: Path, source: Source, ifChanged: bool, run: RootRun) {
    (ifChanged ==> run.probed) && !FileAbove(fs, final) &&
    ((ifChanged && RemoteMatches(h, true, fs, final, run.seen)) ||
     (FullyDelivered(ForestManifest([source]), run.upload) && run.moveReached && run.moveAcked))
  }

  ghost predicate AllGoWell(h: Hash, fs: FS, finals: seq<Path>, sources: seq<Source>, ifChanged: bool, runs: seq<RootRun>, i: nat)
    requires |finals| == |sources| == |runs|
  {
    forall j | i <= j < |finals| :: RootGoesWell(h, fs, finals[j], sources[j], ifChanged, runs[j])
  }

  /**
   A staged push succeeds exactly when each root, judged by the remote state before the push, has no file above it
   and is either unchanged or fully delivered and moved.
   */
  lemma {:induction false} StagedPushSucceedsIff(h: Hash, fs: FS, umask: Mode, base: Path, finals: seq<Path>, sources: seq<Source>,
                                                 ifChanged: bool, runs: seq<RootRun>, i: nat)
    requires WellFormed(fs) && Siblings(finals, base) && UnchangedRun(sources, runs)
    requires Fitting(finals, ForestManifest(sources), runs) && i <= |finals| && FreshStaging(fs, finals, runs, i)
    ensures |finals| == |sources| == |runs|
    ensures NoneFailed(PushRoots(h, fs, umask, finals, ForestManifest(sources), ifChanged, runs, i).1) <==>
            AllGoWell(h, fs, finals, sources, ifChanged, runs, i)
    decreases |finals| - i
  {
    hide *;
    FittingSizes(finals, sources, runs);
    RunUnfolds(h, fs, umask, finals, ForestManifest(sources), ifChanged, runs, i);
    GoWellUnfolds(h, fs, finals, sources, ifChanged, runs, i);
    if i < |finals| {
      var (next, r) := PushRoot(h, fs, umask, finals[i], i, SingleRoot(ForestManifest(sources), i), ifChanged, runs[i]);
      FirstRootGoesWell(h, fs, umask, finals, sources, ifChanged, runs, i);
      if !r.FailedAt? {
        StillFresh(h, fs, next, umask, base, finals, sources, runs, i, r);
        StepWellFormed(h, fs, next, umask, finals[i], TempOf(finals, runs, i), sources[i].tree, r, runs[i]);
        StagedPushSucceedsIff(h, next, umask, base, finals, sources, ifChanged, runs, i + 1);
        LaterRootsGoWell(h, fs, next, umask, base, finals, sources, ifChanged, runs, i, r);
      }
    }
  }

  lemma RunUnfolds(h: Hash, fs: FS, umask: Mode, finals: seq<Path>, m: BatchManifest, ifChanged: bool, runs: seq<RootRun>, i: nat)
    requires Fitting(finals, m, runs) && i <= |finals|
    ensures |m.sources| == |m.roots| == |finals| == |runs| && forall j | 0 <= j < |finals| :: finals[j] != []
    ensures var rs := PushRoots(h, fs, umask, finals, m, ifChanged, runs, i).1;
            if i == |finals| then NoneFailed(rs)
            else
              var (next, r) := PushRoot(h, fs, umask, finals[i], i, SingleRoot(m, i), ifChanged, runs[i]);
              NoneFailed(rs) <==>
              !r.FailedAt? && NoneFailed(PushRoots(h, next, umask, finals, m, ifChanged, runs, i + 1).1)
  {
    hide PushRoot, SingleRoot;
    if i < |finals| {
      var (next, r) := PushRoot(h, fs, umask, finals[i], i, SingleRoot(m, i), ifChanged, runs[i]);
      if r.FailedAt? {
        assert [r][0].FailedAt?;
      } else {
        NoneFailedCons(r, PushRoots(h, next, umask, finals, m, ifChanged, runs, i + 1).1);
      }
    }
  }

  lemma GoWellUnfolds(h: Hash, fs: FS, finals: seq<Path>, sources: seq<Source>, ifChanged: bool, runs: seq<RootRun>, i: nat)
    requires |finals| == |sources| == |runs| && i <= |finals|
    ensures AllGoWell(h, fs, finals, sources, ifChanged, runs, i) <==>
            i == |finals| ||
            (RootGoesWell(h, fs, finals[i], sources[i], ifChanged, runs[i]) &&
             AllGoWell(h, fs, finals, sources, ifChanged, runs, i + 1))
  {
    hide RootGoesWell;
  }

  /** The step of root `i` within the run. */
  lemma FirstRootGoesWell(h: Hash, fs: FS, umask: Mode, finals: seq<Path>, sources: seq<Source>, ifChanged: bool,
                          runs: seq<RootRun>, i: nat)
    requires WellFormed(fs) && UnchangedRun(sources, runs) && |finals| == |sources| == |runs| && i < |finals|
    requires Fitting(finals, ForestManifest(sources), runs) && finals[i] != []
    requires FreshStaging(fs, finals, runs, i)
    ensures TempOf(finals, runs, i) != [] && |ForestManifest(sources).sources| == |ForestManifest(sources).roots| == |finals|
    ensures var (next, r) := PushRoot(h, fs, umask, finals[i], i, SingleRoot(ForestManifest(sources), i), ifChanged, runs[i]);
            (!r.FailedAt? <==> RootGoesWell(h, fs, finals[i], sources[i], ifChanged, runs[i])) &&
            StepEffect(h, fs, next, umask, finals[i], TempOf(finals, runs, i), sources[i].tree, r, runs[i])
  {
    hide PushRoot, SingleRoot, ForestManifest, StepEffect, RootGoesWell, SourceUnchanged, WellFormed, TempOf;
    SingleRootIsForest(sources, i);
    FreshAt(fs, finals, runs, i);
    RootStep(h, fs, umask, finals[i], i, sources[i], ifChanged, runs[i]);
    OneRootGoesWell(h, fs, umask, finals[i], i, sources[i], ifChanged, runs[i]);
  }

  lemma OneRootGoesWell(h: Hash, fs: FS, umask: Mode, final: Path, index: nat, source: Source, ifChanged: bool, run: RootRun)
    requires WellFormed(fs) && final != [] && StagedPath(final, run.nonce, index) !in fs && SourceUnchanged(source, run.upload)
    ensures !PushRoot(h, fs, umask, final, index, ForestManifest([source]), ifChanged, run).1.FailedAt? <==>
            RootGoesWell(h, fs, final, source, ifChanged, run)
  {
    hide PushRoot, ForestManifest, StepEffect, SourceUnchanged, FullyDelivered, StatesMatch, Summary, StagedPath;
    RootStep(h, fs, umask, final, index, source, ifChanged, run);
    ExistingIsClear(fs, final);
  }

  lemma ExistingIsClear(fs: FS, p: Path)
    requires WellFormed(fs)
    ensures p in fs ==> !FileAbove(fs, p)
  {
    if p in fs {
      NoFileAboveExisting(fs, p);
    }
  }

  lemma LaterRootsGoWell(h: Hash, fs: FS, next: FS, umask: Mode, base: Path, finals: seq<Path>, sources: seq<Source>,
                         ifChanged: bool, runs: seq<RootRun>, i: nat, r: RootResult)
    requires |finals| == |runs| == |sources| && Siblings(finals, base) && i < |finals| && !r.FailedAt?
    requires WellFormed(fs) && FreshStaging(fs, finals, runs, i) && TempOf(finals, runs, i) != []
    requires StepEffect(h, fs, next, umask, finals[i], TempOf(finals, runs, i), sources[i].tree, r, runs[i])
    ensures AllGoWell(h, fs, finals, sources, ifChanged, runs, i + 1) <==>
            AllGoWell(h, next, finals, sources, ifChanged, runs, i + 1)
  {
    hide StepEffect, TempOf, WellFormed, RootGoesWell;
    StepWellFormed(h, fs, next, umask, finals[i], TempOf(finals, runs, i), sources[i].tree, r, runs[i]);
    forall j | i + 1 <= j < |finals|
      ensures RootGoesWell(h, fs, finals[j], sources[j], ifChanged, runs[j]) <==>
              RootGoesWell(h, next, finals[j], sources[j], ifChanged, runs[j])
    {
      OneLevel(finals, runs, base, i);
      OneLevel(finals, runs, base, j);
      assert TempOf(finals, runs, i) !in finals;
      StepKeepsBelow(h, fs, next, umask, base, finals[i], TempOf(finals, runs, i), sources[i].tree, r, runs[i], finals[j]);
      MatchesAlike(h, fs, next, finals[j], runs[j].seen);
      StepKeepsAbove(h, fs, next, umask, base, finals[i], TempOf(finals, runs, i), sources[i].tree, r, runs[i], finals[j]);
      GoesWellAlike(h, fs, next, finals[j], sources[j], ifChanged, runs[j]);
    }
  }

  lemma GoesWellAlike(h: Hash, fs: FS, next: FS, final: Path, source: Source, ifChanged: bool, run: RootRun)
    requires RemoteMatches(h, true, fs, final, run.seen) <==> RemoteMatches(h, true, next, final, run.seen)
    requires FileAbove(fs, final) <==> FileAbove(next, final)
    ensures RootGoesWell(h, fs, final, source, ifChanged, run) <==> RootGoesWell(h, next, final, source, ifChanged, run)
  {
    hide RemoteMatches, FileAbove, FullyDelivered, ForestManifest;
  }

  lemma StepKeepsAbove(h: Hash, fs: FS, next: FS, umask: Mode, base: Path, final: Path, temp: Path, t: Tree,
                       r: RootResult, run: RootRun, p: Path)
    requires final != [] && temp != [] && Parent(final) == base && Parent(temp) == base && |p| == |base| + 1
    requires StepEffect(h, fs, next, umask, final, temp, t, r, run)
    ensures FileAbove(fs, p) <==> FileAbove(next, p)
  {
    hide StepEffect;
    forall k | 0 <= k < |p|
      ensures IsFile(fs, p[..k]) <==> IsFile(next, p[..k])
    {
      StepOutside(h, fs, next, umask, base, final, temp, t, r, run, p[..k]);
      assert SameOrNewDir(fs, next, umask, base, p[..k]);
      assert Get(fs, p[..k]) == Get(fs, p[..k]) && Get(next, p[..k]) == Get(next, p[..k]);
    }
  }

  /** A staged push with no skips reports the totals of the whole manifest, as a direct push does. */
  lemma StagedTotals(h: Hash, fs: FS, umask: Mode, base: Path, finals: seq<Path>, sources: seq<Source>,
                     ifChanged: bool, runs: seq<RootRun>)
    requires StagingReady(fs, base, finals, sources, runs) && ValidSources(sources)
    ensures var m := ForestManifest(sources);
            var rs := PushRoots(h, fs, umask, finals, m, ifChanged, runs, 0).1;
            NoneFailed(rs) && (forall i | 0 <= i < |rs| :: !rs[i].Skipped?) ==>
              Entries(rs) == |m.entries| && Bytes(rs) == m.totalBytes
  {
    hide PushRoots, RunEffect, WellFormed, SourceUnchanged, SingleRoot, WellFormedManifest, TempOf;
    var m := ForestManifest(sources);
    FittingSizes(finals, sources, runs);
    RunEffectHolds(h, fs, umask, base, finals, sources, ifChanged, runs, 0);
    var rs := PushRoots(h, fs, umask, finals, m, ifChanged, runs, 0).1;
    hide ForestManifest;
    if NoneFailed(rs) && forall i | 0 <= i < |rs| :: !rs[i].Skipped? {
      ForestManifestWellFormed(sources);
      ManifestDecomposition(m);
      FullTotals(m, 0, rs);
    }
  }

  lemma {:induction false} FullTotals(m: BatchManifest, i: nat, rs: seq<RootResult>)
    requires |m.sources| == |m.roots| == i + |rs| && UploadedInFull(m, i, rs)
    requires forall k | 0 <= k < |rs| :: rs[k].Uploaded?
    ensures SingleTotals(m, i) == (Entries(rs), Bytes(rs))
    decreases |rs|
  {
    hide SingleRoot;
    if rs != [] {
      assert rs[0] == Uploaded(|SingleRoot(m, i + 0).entries|, SingleRoot(m, i + 0).totalBytes);
      forall k | 0 <= k < |rs[1..]| && rs[1..][k].Uploaded?
        ensures rs[1..][k] == Uploaded(|SingleRoot(m, i + 1 + k).entries|, SingleRoot(m, i + 1 + k).totalBytes)
      {
        assert rs[1..][k] == rs[k + 1] && i + 1 + k == i + (k + 1);
      }
      FullTotals(m, i + 1, rs[1..]);
    }
  }
}
