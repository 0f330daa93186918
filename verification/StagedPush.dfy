/**
 The agent's staged push: root by root, skip what is unchanged, stage and move
 the rest, and stop at the first failure.
 */
module StagedPush {
  import opened Base
  import opened Paths
  import opened Trees
  import opened FileSystem
  import opened FileOps
  import opened Manifest
  import opened Decompose
  import opened Roots
  import opened Transfer
  import opened Push
  import opened Listing
  import opened States
  import opened Staging

  /** What reading a remote directory tree returns, in whatever order directories are read. */
  type TreeReader = (FS, Path) -> Tree

  ghost predicate ReadsTrees(read: TreeReader) {
    forall fs, p | WellFormed(fs) && p in fs :: ValidTree(read(fs, p)) && Holds(fs, p, read(fs, p))
  }

  /** Such readers exist. */
  lemma TreesCanBeRead()
    ensures exists read: TreeReader :: ReadsTrees(read)
  {
    ghost var read: TreeReader := (fs: FS, p: Path) => if p in fs then TreeAt(fs, p) else FileTree(0, []);
    forall fs, p | WellFormed(fs) && p in fs
      ensures ValidTree(read(fs, p)) && Holds(fs, p, read(fs, p))
    {
      TreeAtHolds(fs, p);
    }
    assert ReadsTrees(read);
  }

  /**
   How one root fares: the local tree seen when its state is collected, whether the probing requests are answered,
   the nonce of the staging path, and what the upload, the move and the clean-up meet on the network.
   */
  datatype RootRun = RootRun(
    seen: Tree, probed: bool, nonce: nat, upload: Attempt, moveReached: bool, moveAcked: bool, cleanupReached: bool)

  datatype Stage = Probing | Uploading | Moving
  datatype RootResult = Skipped | Uploaded(entries: nat, bytes: nat) | FailedAt(stage: Stage)
  datatype PushSummary = PushSummary(entriesWritten: nat, bytesWritten: nat, skipped: bool)

  // ---------------------------------------------------------------------
  // The specification
  // ---------------------------------------------------------------------

  /** The one state of a valid tree. */
  function Summary(h: Hash, hashed: bool, t: Tree): State {
    Inserted(h, hashed, map[], SourceVisits(t))
  }

  /** The remote tree exists and its state matches the local one's. */
  ghost predicate RemoteMatches(h: Hash, hashed: bool, fs: FS, p: Path, seen: Tree) {
    p in fs && StatesMatch(Summary(h, hashed, seen), Summary(h, hashed, TreeAt(fs, p)))
  }

  function CleanedUp(fs: FS, temp: Path, reached: bool): FS {
    if reached then Rm(fs, temp, CLEANUP).0 else fs
  }

  /** Staging the upload of one root and moving it into place. */
  function StageRoot(fs: FS, umask: Mode, final: Path, index: nat, one: BatchManifest, run: RootRun): (FS, RootResult)
    requires final != []
  {
    var temp := StagedPath(final, run.nonce, index);
    match PushBatch(fs, umask, Some(Destination(temp, false)), one, run.upload)
    case NotPushed(after) => (CleanedUp(after, temp, run.cleanupReached), FailedAt(Uploading))
    case Pushed(after, entries, bytes) =>
      if !run.moveReached then (CleanedUp(after, temp, run.cleanupReached), FailedAt(Moving))
      else
        var (moved, r) := Move(after, temp, final, true);
        if r.Ok? && run.moveAcked then (moved, Uploaded(entries, bytes))
        else (CleanedUp(moved, temp, run.cleanupReached), FailedAt(Moving))
  }

  ghost function PushRoot(h: Hash, fs: FS, umask: Mode, final: Path, index: nat, one: BatchManifest,
                          ifChanged: bool, run: RootRun): (FS, RootResult)
    requires final != []
  {
    if ifChanged && (!run.probed || Stat(fs, final).Err?) then (fs, FailedAt(Probing))
    else if ifChanged && RemoteMatches(h, true, fs, final, run.seen) then (fs, Skipped)
    else StageRoot(fs, umask, final, index, one, run)
  }

  ghost predicate Fitting(finals: seq<Path>, m: BatchManifest, runs: seq<RootRun>) {
    |finals| == |runs| == |m.roots| == |m.sources| && forall i | 0 <= i < |finals| :: finals[i] != []
  }

  /** The roots from `i` on; the results stop at the first failure. */
  ghost function PushRoots(h: Hash, fs: FS, umask: Mode, finals: seq<Path>, m: BatchManifest, ifChanged: bool,
                           runs: seq<RootRun>, i: nat): (FS, seq<RootResult>)
    requires Fitting(finals, m, runs) && i <= |finals|
    decreases |finals| - i
  {
    if i == |finals| then (fs, [])
    else
      var (next, r) := PushRoot(h, fs, umask, finals[i], i, SingleRoot(m, i), ifChanged, runs[i]);
      if r.FailedAt? then (next, [r])
      else
        var (last, later) := PushRoots(h, next, umask, finals, m, ifChanged, runs, i + 1);
        (last, [r] + later)
  }

  function Entries(rs: seq<RootResult>): nat {
    if rs == [] then 0 else (if rs[0].Uploaded? then rs[0].entries else 0) + Entries(rs[1..])
  }

  function Bytes(rs: seq<RootResult>): nat {
    if rs == [] then 0 else (if rs[0].Uploaded? then rs[0].bytes else 0) + Bytes(rs[1..])
  }

  predicate AllSkipped(rs: seq<RootResult>) {
    forall i | 0 <= i < |rs| :: rs[i].Skipped?
  }

  predicate NoneFailed(rs: seq<RootResult>) {
    forall i | 0 <= i < |rs| :: !rs[i].FailedAt?
  }

  /** What the client reports for the results of its roots. */
  ghost predicate Reports(r: Result<PushSummary, Stage>, rs: seq<RootResult>, ifChanged: bool) {
    match r
    case Ok(summary) =>
      NoneFailed(rs) && summary == PushSummary(Entries(rs), Bytes(rs), ifChanged && AllSkipped(rs))
    case Err(stage) => rs != [] && NoneFailed(rs[..|rs| - 1]) && rs[|rs| - 1] == FailedAt(stage)
  }

  // ---------------------------------------------------------------------
  // The client's loop
  // ---------------------------------------------------------------------

  /** The probe: does the remote state match the local one? */
  method RemoteUnchanged(h: Hash, hashed: bool, fs: FS, read: TreeReader, source: Path, seen: Tree, final: Path)
    returns (r: Result<bool, CollectError>)
    requires WellFormed(fs) && ReadsTrees(read) && ValidTree(seen)
    ensures r.Err? <==> Stat(fs, final).Err?
    ensures r.Ok? ==> (r.value <==> RemoteMatches(h, hashed, fs, final, seen))
  {
    var local := CollectLocalState(h, hashed, source, seen);
    var found := read(fs, final);
    assert final in fs ==> ValidTree(found) && Holds(fs, final, found);
    var remote := CollectRemoteState(h, hashed, fs, final, found);
    if remote.Err? {
      return Err(remote.error);
    }
    if remote.value.None? {
      return Ok(false);
    }
    SameSummary(h, hashed, seen, local);
    TreeAtHolds(fs, final);
    WalkSummarises(h, hashed, TreeAt(fs, final));
    CollectorsAgree(h, hashed, fs, final, TreeAt(fs, final), found, Summary(h, hashed, TreeAt(fs, final)), remote.value.value);
    r := Ok(StatesMatch(local, remote.value.value));
  }

  lemma SameSummary(h: Hash, hashed: bool, t: Tree, s: State)
    requires ValidTree(t) && Summarises(s, h, hashed, t)
    ensures s == Summary(h, hashed, t)
  {
    WalkSummarises(h, hashed, t);
    SummaryUnique(s, Summary(h, hashed, t), h, hashed, t, t);
  }

  method PushOneRoot(disk: Disk, h: Hash, read: TreeReader, finals: seq<Path>, m: BatchManifest, ifChanged: bool,
                     runs: seq<RootRun>, i: nat) returns (r: RootResult)
    requires Fitting(finals, m, runs) && i < |finals|
    requires WellFormed(disk.fs) && ReadsTrees(read) && ValidTree(runs[i].seen)
    modifies disk
    ensures (disk.fs, r) == PushRoot(h, old(disk.fs), disk.umask, finals[i], i, SingleRoot(m, i), ifChanged, runs[i])
  {
    hide RemoteMatches, StageRoot;
    var run := runs[i];
    if ifChanged {
      if !run.probed {
        return FailedAt(Probing);
      }
      var matched := RemoteUnchanged(h, true, disk.fs, read, m.sources[i], run.seen, finals[i]);
      if matched.Err? {
        return FailedAt(Probing);
      }
      if matched.value {
        return Skipped;
      }
    }
    r := StageOneRoot(disk, finals[i], i, m, run);
  }

  method StageOneRoot(disk: Disk, final: Path, index: nat, m: BatchManifest, run: RootRun) returns (r: RootResult)
    requires final != [] && index < |m.roots| && index < |m.sources|
    modifies disk
    ensures (disk.fs, r) == StageRoot(old(disk.fs), disk.umask, final, index, SingleRoot(m, index), run)
  {
    hide FilterRooted, PushBatch, Move, Rm, StagedPath;
    var temp := StagedPath(final, run.nonce, index);
    var single := FilterBatchManifest(m, [index]);
    FilterOfOne(index);
    assert single.value == SingleRoot(m, index);
    var pushed := PushBatch(disk.fs, disk.umask, Some(Destination(temp, false)), single.value, run.upload);
    disk.fs := pushed.fs;
    if pushed.NotPushed? {
      CleanUp(disk, temp, run.cleanupReached);
      return FailedAt(Uploading);
    }
    if run.moveReached {
      var moved := FsMove(disk, temp, final, true);
      if moved.Ok? && run.moveAcked {
        return Uploaded(pushed.entries, pushed.bytes);
      }
    }
    CleanUp(disk, temp, run.cleanupReached);
    r := FailedAt(Moving);
  }

  method CleanUp(disk: Disk, temp: Path, reached: bool)
    modifies disk
    ensures disk.fs == CleanedUp(old(disk.fs), temp, reached)
  {
    if reached {
      var _ := FsRm(disk, temp, CLEANUP);
    }
  }

  /** The loop over the roots, with its three counters. */
  method RunStagedPush(disk: Disk, h: Hash, read: TreeReader, finals: seq<Path>, m: BatchManifest, ifChanged: bool,
                       runs: seq<RootRun>) returns (r: Result<PushSummary, Stage>, ghost rs: seq<RootResult>)
    requires Fitting(finals, m, runs) && WellFormed(disk.fs) && ReadsTrees(read)
    requires forall i | 0 <= i < |runs| :: ValidTree(runs[i].seen)
    modifies disk
    ensures (disk.fs, rs) == PushRoots(h, old(disk.fs), disk.umask, finals, m, ifChanged, runs, 0)
    ensures Reports(r, rs, ifChanged)
  {
    hide *;
    var entriesWritten, bytesWritten, changedRoots := 0, 0, 0;
    ghost var start := disk.fs;
    rs := [];
    RunStarts(h, start, disk.umask, finals, m, ifChanged, runs);
    for i := 0 to |finals|
      invariant WellFormed(disk.fs)
      invariant Running(h, start, disk.fs, disk.umask, finals, m, ifChanged, runs, i, rs)
      invariant Counted(rs, entriesWritten, bytesWritten, changedRoots)
    {
      ghost var before := disk.fs;
      var result := PushOneRoot(disk, h, read, finals, m, ifChanged, runs, i);
      RunStep(h, start, before, disk.umask, finals, m, ifChanged, runs, i, rs);
      CountStep(rs, result, entriesWritten, bytesWritten, changedRoots);
      rs := rs + [result];
      match result {
        case FailedAt(stage) =>
          FailureReported(rs, stage, ifChanged);
          return Err(stage), rs;
        case Skipped =>
        case Uploaded(entries, bytes) =>
          entriesWritten, bytesWritten, changedRoots := entriesWritten + entries, bytesWritten + bytes, changedRoots + 1;
      }
    }
    RunEnds(h, start, disk.fs, disk.umask, finals, m, ifChanged, runs, rs);
    SuccessReported(rs, entriesWritten, bytesWritten, changedRoots, ifChanged);
    r := Ok(PushSummary(entriesWritten, bytesWritten, ifChanged && changedRoots == 0));
  }

  /** After `i` roots the whole run is what has happened and then the rest. */
  ghost predicate Running(h: Hash, start: FS, fs: FS, umask: Mode, finals: seq<Path>, m: BatchManifest, ifChanged: bool,
                          runs: seq<RootRun>, i: nat, rs: seq<RootResult>)
  {
    Fitting(finals, m, runs) && i <= |finals| &&
    var rest := PushRoots(h, fs, umask, finals, m, ifChanged, runs, i);
    PushRoots(h, start, umask, finals, m, ifChanged, runs, 0) == (rest.0, rs + rest.1)
  }

  ghost predicate Counted(rs: seq<RootResult>, entries: nat, bytes: nat, changed: nat) {
    NoneFailed(rs) && entries == Entries(rs) && bytes == Bytes(rs) && (changed == 0 <==> AllSkipped(rs))
  }

  lemma RunStarts(h: Hash, fs: FS, umask: Mode, finals: seq<Path>, m: BatchManifest, ifChanged: bool, runs: seq<RootRun>)
    requires Fitting(finals, m, runs)
    ensures Running(h, fs, fs, umask, finals, m, ifChanged, runs, 0, [])
    ensures Counted([], 0, 0, 0) && |finals| == |runs| == |m.roots| == |m.sources|
    ensures forall i | 0 <= i < |finals| :: finals[i] != []
  {
    hide PushRoots;
    var rest := PushRoots(h, fs, umask, finals, m, ifChanged, runs, 0);
    assert [] + rest.1 == rest.1;
  }

  lemma RunStep(h: Hash, start: FS, fs: FS, umask: Mode, finals: seq<Path>, m: BatchManifest, ifChanged: bool,
                runs: seq<RootRun>, i: nat, rs: seq<RootResult>)
    requires Running(h, start, fs, umask, finals, m, ifChanged, runs, i, rs) && i < |finals|
    requires WellFormed(fs)
    ensures var (next, r) := PushRoot(h, fs, umask, finals[i], i, SingleRoot(m, i), ifChanged, runs[i]);
            WellFormed(next) &&
            if r.FailedAt? then PushRoots(h, start, umask, finals, m, ifChanged, runs, 0) == (next, rs + [r])
            else Running(h, start, next, umask, finals, m, ifChanged, runs, i + 1, rs + [r])
  {
    hide PushRoot, SingleRoot;
    var (next, r) := PushRoot(h, fs, umask, finals[i], i, SingleRoot(m, i), ifChanged, runs[i]);
    PushRootKeepsWellFormed(h, fs, umask, finals[i], i, SingleRoot(m, i), ifChanged, runs[i]);
    if !r.FailedAt? {
      Associate(rs, [r], PushRoots(h, next, umask, finals, m, ifChanged, runs, i + 1).1);
    }
  }

  lemma PushRootKeepsWellFormed(h: Hash, fs: FS, umask: Mode, final: Path, index: nat, one: BatchManifest,
                                ifChanged: bool, run: RootRun)
    requires WellFormed(fs) && final != []
    ensures WellFormed(PushRoot(h, fs, umask, final, index, one, ifChanged, run).0)
  {
    hide PushBatch, StagedPath, RemoteMatches, WellFormed, Move, Rm;
    var temp := StagedPath(final, run.nonce, index);
    StagedPathIsSibling(final, run.nonce, index);
    PushKeepsWellFormed(fs, umask, temp, one, run.upload);
    var after := PushBatch(fs, umask, Some(Destination(temp, false)), one, run.upload).fs;
    RmExact(after, temp, CLEANUP);
    MoveKeepsWellFormed(after, temp, final, true);
    RmExact(Move(after, temp, final, true).0, temp, CLEANUP);
  }

  lemma PushKeepsWellFormed(fs: FS, umask: Mode, temp: Path, one: BatchManifest, a: Attempt)
    requires WellFormed(fs)
    ensures WellFormed(PushBatch(fs, umask, Some(Destination(temp, false)), one, a).fs)
  {
    hide PushBatch, DaemonRoots, WellFormed;
    PushTouchesRoots(fs, umask, Some(Destination(temp, false)), one, a);
  }

  lemma CountStep(rs: seq<RootResult>, r: RootResult, entries: nat, bytes: nat, changed: nat)
    requires Counted(rs, entries, bytes, changed)
    ensures r.Skipped? ==> Counted(rs + [r], entries, bytes, changed)
    ensures r.Uploaded? ==> Counted(rs + [r], entries + r.entries, bytes + r.bytes, changed + 1)
    ensures r.FailedAt? ==> NoneFailed((rs + [r])[..|rs + [r]| - 1])
  {
    SumsAppend(rs, r);
    assert (rs + [r])[..|rs + [r]| - 1] == rs;
    assert (rs + [r])[|rs|] == r;
    assert forall i | 0 <= i < |rs| :: (rs + [r])[i] == rs[i];
  }

  lemma {:induction false} SumsAppend(rs: seq<RootResult>, r: RootResult)
    ensures Entries(rs + [r]) == Entries(rs) + if r.Uploaded? then r.entries else 0
    ensures Bytes(rs + [r]) == Bytes(rs) + if r.Uploaded? then r.bytes else 0
  {
    if rs == [] {
      assert (rs + [r])[1..] == [];
    } else {
      assert (rs + [r])[1..] == rs[1..] + [r];
      SumsAppend(rs[1..], r);
    }
  }

  lemma FailureReported(rs: seq<RootResult>, stage: Stage, ifChanged: bool)
    requires rs != [] && NoneFailed(rs[..|rs| - 1]) && rs[|rs| - 1] == FailedAt(stage)
    ensures Reports(Err(stage), rs, ifChanged)
  {
  }

  lemma SuccessReported(rs: seq<RootResult>, entries: nat, bytes: nat, changed: nat, ifChanged: bool)
    requires Counted(rs, entries, bytes, changed)
    ensures Reports(Ok(PushSummary(entries, bytes, ifChanged && changed == 0)), rs, ifChanged)
  {
  }

  lemma RunEnds(h: Hash, start: FS, fs: FS, umask: Mode, finals: seq<Path>, m: BatchManifest, ifChanged: bool,
                runs: seq<RootRun>, rs: seq<RootResult>)
    requires Running(h, start, fs, umask, finals, m, ifChanged, runs, |finals|, rs)
    ensures Fitting(finals, m, runs) && PushRoots(h, start, umask, finals, m, ifChanged, runs, 0) == (fs, rs)
  {
    assert rs + [] == rs;
  }
}
