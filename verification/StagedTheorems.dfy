/** What a staged push guarantees, over all remote states and all ways it can fail. */
module StagedTheorems {
  import opened Base
  import opened Paths
  import opened Trees
  import opened FileSystem
  import opened FileOps
  import opened Manifest
  import opened Decompose
  import opened Roots
  import opened Push
  import opened Listing
  import opened States
  import opened Staging
  import opened StagedPush

  // ---------------------------------------------------------------------
  // One root
  // ---------------------------------------------------------------------

  /** The final path has been replaced. */
  predicate TookEffect(r: RootResult, run: RootRun) {
    r.Uploaded? || (r == FailedAt(Moving) && run.moveReached)
  }

  /** Something may have been left at the staging path: the clean-up request did not get through. */
  predicate MayLeave(r: RootResult, run: RootRun) {
    (r == FailedAt(Uploading) || (r == FailedAt(Moving) && !run.moveReached)) && !run.cleanupReached
  }

  function TempOf(finals: seq<Path>, runs: seq<RootRun>, i: nat): Path
    requires i < |finals| && i < |runs| && finals[i] != []
  {
    StagedPath(finals[i], runs[i].nonce, i)
  }

  /** What one root's step does to the file system. */
  ghost predicate StepEffect(h: Hash, fs: FS, next: FS, umask: Mode, final: Path, temp: Path, t: Tree,
                             r: RootResult, run: RootRun)
    requires final != [] && temp != []
  {
    WellFormed(next) &&
    (if TookEffect(r, run) then Replaced(fs, next, umask, final, t)
     else if MayLeave(r, run) then OnlyAt(fs, next, umask, temp)
     else OnlyNewDirs(fs, next, umask, Parent(final))) &&
    (r.Skipped? ==> next == fs && RemoteMatches(h, true, fs, final, run.seen))
  }

  lemma FileAboveSibling(fs: FS, p: Path, q: Path)
    requires p != [] && q != [] && Parent(p) == Parent(q)
    ensures FileAbove(fs, p) <==> FileAbove(fs, q)
  {
    FileAboveParent(fs, p);
    FileAboveParent(fs, q);
  }

  /** Staging a root onto a fresh path works exactly when nothing is in its way and every request comes through. */
  lemma StageRootExact(h: Hash, fs: FS, umask: Mode, final: Path, index: nat, source: Source, run: RootRun)
    requires WellFormed(fs) && final != [] && StagedPath(final, run.nonce, index) !in fs
    requires SourceUnchanged(source, run.upload)
    ensures var m := ForestManifest([source]);
            var (next, r) := StageRoot(fs, umask, final, index, m, run);
            !r.Skipped? && r != FailedAt(Probing) &&
            (r.Uploaded? <==> !FileAbove(fs, final) && FullyDelivered(m, run.upload) && run.moveReached && run.moveAcked) &&
            (r.Uploaded? ==> r == Uploaded(|m.entries|, m.totalBytes)) &&
            StepEffect(h, fs, next, umask, final, StagedPath(final, run.nonce, index), source.tree, r, run)
  {
    hide *;
    var m, temp := ForestManifest([source]), StagedPath(final, run.nonce, index);
    StagedPathIsSibling(final, run.nonce, index);
    FileAboveSibling(fs, final, temp);
    UploadExact(fs, umask, temp, source, run.upload);
    var pushed := PushBatch(fs, umask, Some(Destination(temp, false)), m, run.upload);
    CleanUpExact(fs, pushed.fs, umask, temp);
    if pushed.Pushed? {
      MoveIntoPlace(fs, pushed.fs, umask, final, temp, source.tree);
      NothingToCleanUp(Move(pushed.fs, temp, final, true).0, temp);
    }
    StageRootCases(h, fs, umask, final, index, source, run, pushed);
  }

  lemma NothingToCleanUp(fs: FS, temp: Path)
    requires temp !in fs
    ensures Rm(fs, temp, CLEANUP).0 == fs
  {
  }

  lemma StageRootCases(h: Hash, fs: FS, umask: Mode, final: Path, index: nat, source: Source, run: RootRun, pushed: PushOutcome)
    requires final != []
    requires var m, temp := ForestManifest([source]), StagedPath(final, run.nonce, index);
             temp != [] && Parent(temp) == Parent(final) &&
             pushed == PushBatch(fs, umask, Some(Destination(temp, false)), m, run.upload) &&
             (pushed.Pushed? <==> !FileAbove(fs, final) && FullyDelivered(m, run.upload)) &&
             WellFormed(pushed.fs) && OnlyAt(fs, pushed.fs, umask, temp) &&
             WellFormed(Rm(pushed.fs, temp, CLEANUP).0) && OnlyNewDirs(fs, Rm(pushed.fs, temp, CLEANUP).0, umask, Parent(temp)) &&
             (pushed.Pushed? ==>
                pushed.entries == |m.entries| && pushed.bytes == m.totalBytes &&
                var (moved, r) := Move(pushed.fs, temp, final, true);
                r.Ok? && Replaced(fs, moved, umask, final, source.tree) && Rm(moved, temp, CLEANUP).0 == moved)
    ensures var m := ForestManifest([source]);
            var (next, r) := StageRoot(fs, umask, final, index, m, run);
            !r.Skipped? && r != FailedAt(Probing) &&
            (r.Uploaded? <==> !FileAbove(fs, final) && FullyDelivered(m, run.upload) && run.moveReached && run.moveAcked) &&
            (r.Uploaded? ==> r == Uploaded(|m.entries|, m.totalBytes)) &&
            StepEffect(h, fs, next, umask, final, StagedPath(final, run.nonce, index), source.tree, r, run)
  {
    hide PushBatch, ForestManifest, FullyDelivered, FileAbove, Move, Rm, OnlyAt, OnlyNewDirs, HoldsCopy, WellFormed, StagedPath;
  }

  /** The step of one root, with its probe. */
  lemma RootStep(h: Hash, fs: FS, umask: Mode, final: Path, index: nat, source: Source, ifChanged: bool, run: RootRun)
    requires WellFormed(fs) && final != [] && StagedPath(final, run.nonce, index) !in fs
    requires SourceUnchanged(source, run.upload)
    ensures StagedPath(final, run.nonce, index) != []
    ensures var m := ForestManifest([source]);
            var (next, r) := PushRoot(h, fs, umask, final, index, m, ifChanged, run);
            (r.Skipped? <==> ifChanged && run.probed && RemoteMatches(h, true, fs, final, run.seen)) &&
            (r.Uploaded? <==> (ifChanged ==> run.probed) && !FileAbove(fs, final) && !r.Skipped? &&
                              FullyDelivered(m, run.upload) && run.moveReached && run.moveAcked) &&
            (r.Uploaded? ==> r == Uploaded(|m.entries|, m.totalBytes)) &&
            StepEffect(h, fs, next, umask, final, StagedPath(final, run.nonce, index), source.tree, r, run)
  {
    StageRootExact(h, fs, umask, final, index, source, run);
    ProbeAnswers(fs, final);
    hide StageRoot, ForestManifest, FullyDelivered, StagedPath, StatesMatch, FileAbove, Replaced, OnlyAt;
    assert OnlyNewDirs(fs, fs, umask, Parent(final));
  }

  lemma ProbeAnswers(fs: FS, p: Path)
    requires WellFormed(fs)
    ensures Stat(fs, p).Err? <==> FileAbove(fs, p)
  {
    if p in fs {
      NoFileAboveExisting(fs, p);
    }
  }

  // ---------------------------------------------------------------------
  // The whole run
  // ---------------------------------------------------------------------

  /** The final paths stand side by side in one directory. */
  ghost predicate Siblings(finals: seq<Path>, base: Path) {
    (forall i | 0 <= i < |finals| :: finals[i] != [] && Parent(finals[i]) == base) &&
    forall i, j | 0 <= i < j < |finals| :: finals[i] != finals[j]
  }

  /** From root `i` on the staging paths do not exist yet and are nobody's final path. */
  ghost predicate FreshStaging(fs: FS, finals: seq<Path>, runs: seq<RootRun>, i: nat)
    requires |finals| == |runs| && forall j | 0 <= j < |finals| :: finals[j] != []
  {
    forall j | i <= j < |finals| :: TempOf(finals, runs, j) !in fs && TempOf(finals, runs, j) !in finals
  }

  ghost predicate SameBelow(fs: FS, after: FS, p: Path) {
    forall rel: Path :: Get(after, p + rel) == Get(fs, p + rel)
  }

  /** What has become of one final path, given its root's result, if the run came to it. */
  ghost predicate RootEffect(h: Hash, fs: FS, after: FS, umask: Mode, final: Path, t: Tree, run: RootRun, r: Option<RootResult>) {
    if r.Some? && TookEffect(r.value, run) then HoldsCopy(after, final, umask, t)
    else SameBelow(fs, after, final) && (r == Some(Skipped) ==> RemoteMatches(h, true, fs, final, run.seen))
  }

  function ResultAt(rs: seq<RootResult>, i: int): Option<RootResult> {
    if 0 <= i < |rs| then Some(rs[i]) else None
  }

  /** Neither at or below a final path from `i` on, nor below a staging path that may have been left. */
  ghost predicate Elsewhere(finals: seq<Path>, runs: seq<RootRun>, i: nat, rs: seq<RootResult>, q: Path)
    requires |finals| == |runs| && (forall j | 0 <= j < |finals| :: finals[j] != []) && i + |rs| <= |finals|
  {
    (forall j | i <= j < |finals| :: !(finals[j] <= q)) &&
    !(rs != [] && MayLeave(rs[|rs| - 1], runs[i + |rs| - 1]) && TempOf(finals, runs, i + |rs| - 1) <= q)
  }

  /** Every final path from `i` on is copied or kept, and everywhere else at most directories are new. */
  ghost predicate RunEffect(h: Hash, fs: FS, after: FS, umask: Mode, base: Path, finals: seq<Path>, sources: seq<Source>,
                            runs: seq<RootRun>, i: nat, rs: seq<RootResult>)
    requires |finals| == |runs| == |sources| && (forall j | 0 <= j < |finals| :: finals[j] != []) && i + |rs| <= |finals|
  {
    WellFormed(after) &&
    (forall j | i <= j < |finals| ::
       RootEffect(h, fs, after, umask, finals[j], sources[j].tree, runs[j], ResultAt(rs, j - i))) &&
    forall q | Elsewhere(finals, runs, i, rs, q) :: SameOrNewDir(fs, after, umask, base, q)
  }

  ghost predicate UnchangedRun(sources: seq<Source>, runs: seq<RootRun>) {
    |sources| == |runs| && forall i | 0 <= i < |sources| :: SourceUnchanged(sources[i], runs[i].upload)
  }

  /** What an uploaded root reports is all of its part of the manifest. */
  ghost predicate UploadedInFull(m: BatchManifest, i: nat, rs: seq<RootResult>)
    requires |m.sources| == |m.roots| && i + |rs| <= |m.roots|
  {
    forall k | 0 <= k < |rs| && rs[k].Uploaded? ::
      rs[k] == Uploaded(|SingleRoot(m, i + k).entries|, SingleRoot(m, i + k).totalBytes)
  }

  lemma ApartBelow(p: Path, q: Path, x: Path)
    requires |p| == |q| && p != q && p <= x
    ensures !(q <= x)
  {
  }

  lemma {:induction false} RunEffectHolds(h: Hash, fs: FS, umask: Mode, base: Path, finals: seq<Path>, sources: seq<Source>,
                                          ifChanged: bool, runs: seq<RootRun>, i: nat)
    requires WellFormed(fs) && Siblings(finals, base) && UnchangedRun(sources, runs)
    requires Fitting(finals, ForestManifest(sources), runs) && i <= |finals| && FreshStaging(fs, finals, runs, i)
    ensures var (after, rs) := PushRoots(h, fs, umask, finals, ForestManifest(sources), ifChanged, runs, i);
            i + |rs| <= |finals| && (NoneFailed(rs) ==> i + |rs| == |finals|) &&
            (forall k | 0 <= k < |rs| - 1 :: !rs[k].FailedAt?) && UploadedInFull(ForestManifest(sources), i, rs) &&
            RunEffect(h, fs, after, umask, base, finals, sources, runs, i, rs)
    decreases |finals| - i
  {
    hide PushRoot, SingleRoot, ForestManifest, StepEffect, RunEffect, SourceUnchanged, WellFormed, TempOf, FreshStaging, Siblings;
    var m := ForestManifest(sources);
    FittingSizes(finals, sources, runs);
    if i == |finals| {
      NothingDone(h, fs, umask, base, finals, sources, runs, i);
    } else {
      SingleRootIsForest(sources, i);
      FreshAt(fs, finals, runs, i);
      RootStep(h, fs, umask, finals[i], i, sources[i], ifChanged, runs[i]);
      var (next, r) := PushRoot(h, fs, umask, finals[i], i, SingleRoot(m, i), ifChanged, runs[i]);
      StepWellFormed(h, fs, next, umask, finals[i], TempOf(finals, runs, i), sources[i].tree, r, runs[i]);
      if r.FailedAt? {
        assert !NoneFailed([r]) by {
          assert [r][0].FailedAt?;
        }
        FailureEffect(h, fs, next, umask, base, finals, sources, runs, i, r);
      } else {
        StillFresh(h, fs, next, umask, base, finals, sources, runs, i, r);
        RunEffectHolds(h, next, umask, base, finals, sources, ifChanged, runs, i + 1);
        var (after, later) := PushRoots(h, next, umask, finals, m, ifChanged, runs, i + 1);
        StepThenRun(h, fs, next, after, umask, base, finals, sources, runs, i, r, later);
        NoneFailedCons(r, later);
        UploadedCons(m, i, r, later);
      }
    }
  }

  lemma NoneFailedCons(r: RootResult, later: seq<RootResult>)
    requires !r.FailedAt?
    ensures NoneFailed([r] + later) <==> NoneFailed(later)
    ensures (forall k | 0 <= k < |later| - 1 :: !later[k].FailedAt?) ==>
              forall k | 0 <= k < |[r] + later| - 1 :: !([r] + later)[k].FailedAt?
  {
    assert forall k | 0 <= k < |later| :: ([r] + later)[k + 1] == later[k];
  }

  lemma UploadedCons(m: BatchManifest, i: nat, r: RootResult, later: seq<RootResult>)
    requires |m.sources| == |m.roots| && i + 1 + |later| <= |m.roots| && UploadedInFull(m, i + 1, later)
    requires r.Uploaded? ==> r == Uploaded(|SingleRoot(m, i).entries|, SingleRoot(m, i).totalBytes)
    ensures UploadedInFull(m, i, [r] + later)
  {
    hide SingleRoot;
    var all := [r] + later;
    forall k | 0 <= k < |all| && all[k].Uploaded?
      ensures all[k] == Uploaded(|SingleRoot(m, i + k).entries|, SingleRoot(m, i + k).totalBytes)
    {
      if k > 0 {
        assert all[k] == later[k - 1] && i + 1 + (k - 1) == i + k;
      }
    }
  }

  lemma FittingSizes(finals: seq<Path>, sources: seq<Source>, runs: seq<RootRun>)
    requires Fitting(finals, ForestManifest(sources), runs)
    ensures |finals| == |runs| == |sources| && forall j | 0 <= j < |finals| :: finals[j] != []
  {
  }

  lemma FreshAt(fs: FS, finals: seq<Path>, runs: seq<RootRun>, i: nat)
    requires |finals| == |runs| && (forall j | 0 <= j < |finals| :: finals[j] != []) && i < |finals|
    requires FreshStaging(fs, finals, runs, i)
    ensures StagedPath(finals[i], runs[i].nonce, i) == TempOf(finals, runs, i)
    ensures TempOf(finals, runs, i) !in fs && TempOf(finals, runs, i) !in finals
  {
  }

  lemma NothingDone(h: Hash, fs: FS, umask: Mode, base: Path, finals: seq<Path>, sources: seq<Source>, runs: seq<RootRun>, i: nat)
    requires |finals| == |runs| == |sources| && (forall j | 0 <= j < |finals| :: finals[j] != []) && i == |finals|
    requires WellFormed(fs)
    ensures RunEffect(h, fs, fs, umask, base, finals, sources, runs, i, [])
  {
  }

  /** Staging and final paths all lie directly in `base`. */
  lemma OneLevel(finals: seq<Path>, runs: seq<RootRun>, base: Path, i: nat)
    requires Siblings(finals, base) && |runs| == |finals| && i < |finals|
    ensures finals[i] != [] && Parent(finals[i]) == base && |finals[i]| == |base| + 1
    ensures var temp := TempOf(finals, runs, i); temp != [] && Parent(temp) == base && |temp| == |base| + 1 && temp != finals[i]
  {
    StagedPathIsSibling(finals[i], runs[i].nonce, i);
  }

  /** What a step leaves at paths outside its own final path, unless it may have left its staging path. */
  lemma StepOutside(h: Hash, fs: FS, next: FS, umask: Mode, base: Path, final: Path, temp: Path, t: Tree,
                    r: RootResult, run: RootRun, q: Path)
    requires final != [] && temp != [] && Parent(final) == base && Parent(temp) == base
    requires StepEffect(h, fs, next, umask, final, temp, t, r, run)
    requires TookEffect(r, run) ==> !(final <= q)
    requires MayLeave(r, run) ==> !(temp <= q)
    ensures SameOrNewDir(fs, next, umask, base, q)
  {
    hide WellFormed, HoldsCopy, SameOrNewDir;
  }

  lemma StillFresh(h: Hash, fs: FS, next: FS, umask: Mode, base: Path, finals: seq<Path>, sources: seq<Source>,
                   runs: seq<RootRun>, i: nat, r: RootResult)
    requires |finals| == |runs| == |sources| && Siblings(finals, base) && i < |finals|
    requires FreshStaging(fs, finals, runs, i) && !r.FailedAt?
    requires TempOf(finals, runs, i) != []
    requires StepEffect(h, fs, next, umask, finals[i], TempOf(finals, runs, i), sources[i].tree, r, runs[i])
    ensures FreshStaging(next, finals, runs, i + 1)
  {
    hide StepEffect, TempOf;
    forall j | i + 1 <= j < |finals|
      ensures TempOf(finals, runs, j) !in next && TempOf(finals, runs, j) !in finals
    {
      var q := TempOf(finals, runs, j);
      OneLevel(finals, runs, base, i);
      OneLevel(finals, runs, base, j);
      assert q !in fs && q !in finals;
      ApartBelow(q, finals[i], q);
      StepOutside(h, fs, next, umask, base, finals[i], TempOf(finals, runs, i), sources[i].tree, r, runs[i], q);
    }
  }

  lemma FailureEffect(h: Hash, fs: FS, next: FS, umask: Mode, base: Path, finals: seq<Path>, sources: seq<Source>,
                      runs: seq<RootRun>, i: nat, r: RootResult)
    requires |finals| == |runs| == |sources| && Siblings(finals, base) && i < |finals| && r.FailedAt?
    requires FreshStaging(fs, finals, runs, i) && TempOf(finals, runs, i) != []
    requires StepEffect(h, fs, next, umask, finals[i], TempOf(finals, runs, i), sources[i].tree, r, runs[i])
    ensures RunEffect(h, fs, next, umask, base, finals, sources, runs, i, [r])
  {
    hide StepEffect, TempOf, WellFormed, SameOrNewDir;
    StepWellFormed(h, fs, next, umask, finals[i], TempOf(finals, runs, i), sources[i].tree, r, runs[i]);
    OneLevel(finals, runs, base, i);
    forall q | Elsewhere(finals, runs, i, [r], q)
      ensures SameOrNewDir(fs, next, umask, base, q)
    {
      StepOutside(h, fs, next, umask, base, finals[i], TempOf(finals, runs, i), sources[i].tree, r, runs[i], q);
    }
    forall j | i <= j < |finals|
      ensures RootEffect(h, fs, next, umask, finals[j], sources[j].tree, runs[j], ResultAt([r], j - i))
    {
      if j > i || !TookEffect(r, runs[i]) {
        OneLevel(finals, runs, base, j);
        assert TempOf(finals, runs, i) !in finals;
        StepKeepsBelow(h, fs, next, umask, base, finals[i], TempOf(finals, runs, i), sources[i].tree, r, runs[i], finals[j]);
      }
    }
  }

  lemma StepWellFormed(h: Hash, fs: FS, next: FS, umask: Mode, final: Path, temp: Path, t: Tree, r: RootResult, run: RootRun)
    requires final != [] && temp != [] && StepEffect(h, fs, next, umask, final, temp, t, r, run)
    ensures WellFormed(next) && (TookEffect(r, run) ==> HoldsCopy(next, final, umask, t))
    ensures r.Skipped? ==> next == fs && RemoteMatches(h, true, fs, final, run.seen)
  {
    hide WellFormed, HoldsCopy, OnlyAt, OnlyNewDirs;
  }

  /** A step keeps everything below another path of the same directory, and below its own unless it took effect. */
  lemma StepKeepsBelow(h: Hash, fs: FS, next: FS, umask: Mode, base: Path, final: Path, temp: Path, t: Tree,
                       r: RootResult, run: RootRun, p: Path)
    requires final != [] && temp != [] && Parent(final) == base && Parent(temp) == base
    requires StepEffect(h, fs, next, umask, final, temp, t, r, run)
    requires |p| == |base| + 1 && p != temp && (TookEffect(r, run) ==> p != final)
    ensures SameBelow(fs, next, p)
  {
    hide StepEffect;
    forall rel: Path
      ensures Get(next, p + rel) == Get(fs, p + rel)
    {
      var q := p + rel;
      assert p <= q && |final| == |base| + 1 && |temp| == |base| + 1;
      ApartBelow(p, temp, q);
      if p != final {
        ApartBelow(p, final, q);
      }
      StepOutside(h, fs, next, umask, base, final, temp, t, r, run, q);
      assert !(q <= base);
    }
  }

  lemma StepThenRun(h: Hash, fs: FS, next: FS, after: FS, umask: Mode, base: Path, finals: seq<Path>, sources: seq<Source>,
                    runs: seq<RootRun>, i: nat, r: RootResult, later: seq<RootResult>)
    requires |finals| == |runs| == |sources| && Siblings(finals, base) && i + 1 + |later| <= |finals| && !r.FailedAt?
    requires WellFormed(fs) && FreshStaging(fs, finals, runs, i) && TempOf(finals, runs, i) != []
    requires StepEffect(h, fs, next, umask, finals[i], TempOf(finals, runs, i), sources[i].tree, r, runs[i])
    requires RunEffect(h, next, after, umask, base, finals, sources, runs, i + 1, later)
    ensures RunEffect(h, fs, after, umask, base, finals, sources, runs, i, [r] + later)
  {
    hide StepEffect, TempOf, WellFormed, SameOrNewDir, RootEffect, FreshStaging;
    StepWellFormed(h, fs, next, umask, finals[i], TempOf(finals, runs, i), sources[i].tree, r, runs[i]);
    OneLevel(finals, runs, base, i);
    forall q | Elsewhere(finals, runs, i, [r] + later, q)
      ensures SameOrNewDir(fs, after, umask, base, q)
    {
      assert Elsewhere(finals, runs, i + 1, later, q);
      StepOutside(h, fs, next, umask, base, finals[i], TempOf(finals, runs, i), sources[i].tree, r, runs[i], q);
      SameOrNewDirTrans(fs, next, after, umask, base, q);
    }
    forall j | i <= j < |finals|
      ensures RootEffect(h, fs, after, umask, finals[j], sources[j].tree, runs[j], ResultAt([r] + later, j - i))
    {
      if j == i {
        FirstRootKept(h, fs, next, after, umask, base, finals, sources, runs, i, later);
        FirstRootEffect(h, fs, next, after, umask, finals[i], TempOf(finals, runs, i), sources[i].tree, r, runs[i]);
        assert ResultAt([r] + later, 0) == Some(r);
      } else {
        LaterRootEffect(h, fs, next, after, umask, base, finals, sources, runs, i, r, later, j);
      }
    }
  }

  lemma FirstRootKept(h: Hash, fs: FS, next: FS, after: FS, umask: Mode, base: Path, finals: seq<Path>, sources: seq<Source>,
                      runs: seq<RootRun>, i: nat, later: seq<RootResult>)
    requires |finals| == |runs| == |sources| && Siblings(finals, base) && i + 1 + |later| <= |finals|
    requires FreshStaging(fs, finals, runs, i)
    requires RunEffect(h, next, after, umask, base, finals, sources, runs, i + 1, later)
    ensures SameBelow(next, after, finals[i])
  {
    hide TempOf, WellFormed, RootEffect, MayLeave;
    OneLevel(finals, runs, base, i);
    forall rel: Path
      ensures Get(after, finals[i] + rel) == Get(next, finals[i] + rel)
    {
      var q := finals[i] + rel;
      assert finals[i] <= q && !(q <= base);
      forall j | i + 1 <= j < |finals|
        ensures !(finals[j] <= q) && !(TempOf(finals, runs, j) <= q)
      {
        OneLevel(finals, runs, base, j);
        assert TempOf(finals, runs, j) !in finals;
        ApartBelow(finals[i], finals[j], q);
        ApartBelow(finals[i], TempOf(finals, runs, j), q);
      }
      assert Elsewhere(finals, runs, i + 1, later, q);
    }
  }

  lemma FirstRootEffect(h: Hash, fs: FS, next: FS, after: FS, umask: Mode, final: Path, temp: Path, t: Tree,
                        r: RootResult, run: RootRun)
    requires final != [] && temp != [] && StepEffect(h, fs, next, umask, final, temp, t, r, run)
    requires SameBelow(next, after, final) && !r.FailedAt?
    ensures RootEffect(h, fs, after, umask, final, t, run, Some(r))
  {
    hide Copied, RemoteMatches, WellFormed, OnlyAt;
    if r.Uploaded? {
      forall rel: Path
        ensures Get(after, final + rel) == Copied(umask, Lookup(t, rel))
      {
        assert Get(after, final + rel) == Get(next, final + rel);
      }
    }
  }

  lemma LaterRootEffect(h: Hash, fs: FS, next: FS, after: FS, umask: Mode, base: Path, finals: seq<Path>, sources: seq<Source>,
                        runs: seq<RootRun>, i: nat, r: RootResult, later: seq<RootResult>, j: nat)
    requires |finals| == |runs| == |sources| && Siblings(finals, base) && i + 1 + |later| <= |finals| && i < j < |finals|
    requires WellFormed(fs) && !r.FailedAt? && TempOf(finals, runs, i) != [] && FreshStaging(fs, finals, runs, i)
    requires StepEffect(h, fs, next, umask, finals[i], TempOf(finals, runs, i), sources[i].tree, r, runs[i])
    requires RunEffect(h, next, after, umask, base, finals, sources, runs, i + 1, later)
    ensures RootEffect(h, fs, after, umask, finals[j], sources[j].tree, runs[j], ResultAt([r] + later, j - i))
  {
    hide StepEffect, TempOf, WellFormed, SameOrNewDir, HoldsCopy, RemoteMatches;
    OneLevel(finals, runs, base, i);
    OneLevel(finals, runs, base, j);
    assert TempOf(finals, runs, i) !in finals;
    StepWellFormed(h, fs, next, umask, finals[i], TempOf(finals, runs, i), sources[i].tree, r, runs[i]);
    StepKeepsBelow(h, fs, next, umask, base, finals[i], TempOf(finals, runs, i), sources[i].tree, r, runs[i], finals[j]);
    MatchesAlike(h, fs, next, finals[j], runs[j].seen);
    assert ResultAt([r] + later, j - i) == ResultAt(later, j - (i + 1));
    assert RootEffect(h, next, after, umask, finals[j], sources[j].tree, runs[j], ResultAt(later, j - (i + 1)));
    KeptBelow(fs, next, after, finals[j]);
  }

  lemma KeptBelow(fs: FS, next: FS, after: FS, p: Path)
    requires SameBelow(fs, next, p)
    ensures SameBelow(next, after, p) ==> SameBelow(fs, after, p)
  {
    if SameBelow(next, after, p) {
      forall rel: Path
        ensures Get(after, p + rel) == Get(fs, p + rel)
      {
        assert Get(next, p + rel) == Get(fs, p + rel);
      }
    }
  }

  /** Whether a remote tree matches depends only on what is at and below its path. */
  lemma MatchesAlike(h: Hash, fs: FS, fs': FS, p: Path, seen: Tree)
    requires WellFormed(fs) && WellFormed(fs') && SameBelow(fs, fs', p)
    ensures RemoteMatches(h, true, fs, p, seen) <==> RemoteMatches(h, true, fs', p, seen)
  {
    assert p + [] == p;
    assert Get(fs', p + []) == Get(fs, p + []);
    if p in fs {
      var t, t' := TreeAt(fs, p), TreeAt(fs', p);
      TreeAtHolds(fs, p);
      TreeAtHolds(fs', p);
      SameTreeSummary(h, fs, fs', p, t, t');
    }
  }

  lemma SameTreeSummary(h: Hash, fs: FS, fs': FS, p: Path, t: Tree, t': Tree)
    requires SameBelow(fs, fs', p) && Holds(fs, p, t) && Holds(fs', p, t') && ValidTree(t) && ValidTree(t')
    ensures Summary(h, true, t) == Summary(h, true, t')
  {
    hide Lookup, ValidTree, Get;
    WalkSummarises(h, true, t);
    WalkSummarises(h, true, t');
    forall rel: Path
      ensures Lookup(t, rel) == Lookup(t', rel)
    {
      assert Get(fs, p + rel) == Lookup(t, rel);
      assert Get(fs', p + rel) == Lookup(t', rel);
    }
    SummaryUnique(Summary(h, true, t), Summary(h, true, t'), h, true, t, t');
  }
}
