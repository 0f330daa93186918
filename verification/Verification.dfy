/**
 Verification after a transfer, and pushing again: do the states compared belong
 to the paths that were written, and do they match?
 */
module Verification {
  import opened Base
  import opened Paths
  import opened Trees
  import opened FileSystem
  import opened FileOps
  import opened Manifest
  import opened Decompose
  import opened Overlay
  import opened Receiver
  import opened Roots
  import opened Forest
  import opened Push
  import opened Listing
  import opened States
  import opened Staging
  import opened StagedPush
  import opened StagedTheorems
  import opened StagedOutcomes

  // ---------------------------------------------------------------------
  // A pushed tree matches
  // ---------------------------------------------------------------------

  /** Everything of `t` stands at `p` with its kind and content; there may be more. */
  ghost predicate HoldsContents(fs: FS, p: Path, t: Tree) {
    forall rel: Path | Lookup(t, rel).Some? ::
      Get(fs, p + rel).Some? && SameContent(Lookup(t, rel).value, Get(fs, p + rel).value)
  }

  /** A remote tree that holds all of the local one matches it, with and without hashes. */
  lemma ContentsMatch(h: Hash, hashed: bool, fs: FS, p: Path, t: Tree)
    requires WellFormed(fs) && ValidTree(t) && HoldsContents(fs, p, t)
    ensures RemoteMatches(h, hashed, fs, p, t)
  {
    assert p + [] == p && Lookup(t, []).Some?;
    assert Get(fs, p + []).Some?;
    var found := TreeAt(fs, p);
    TreeAtHolds(fs, p);
    WalkSummarises(h, hashed, t);
    WalkSummarises(h, hashed, found);
    MatchByPath(h, hashed, t, found, Summary(h, hashed, t), Summary(h, hashed, found));
    hide Summary, TreeAt, ValidTree, WellFormed, StatesMatch, Summarises;
    forall rel: Path
      ensures MatchesAt(h, hashed, t, found, rel)
    {
      assert Get(fs, p + rel) == Lookup(found, rel);
    }
  }

  lemma NodeAfterKeepsContent(side: Side, umask: Mode, before: Option<Node>, base: Path, rel: Path, n: Node)
    ensures SameContent(n, NodeAfter(side, umask, before, VisitItem(base, Visit(rel, n))))
    ensures KindOf(NodeAfter(side, umask, before, VisitItem(base, Visit(rel, n)))) == KindOf(n)
  {
  }

  lemma LaidHoldsContents(fs: FS, after: FS, side: Side, umask: Mode, rootPaths: seq<Path>, sources: seq<Source>, i: nat)
    requires |rootPaths| == |sources| && i < |sources| && LaidOver(fs, after, side, umask, rootPaths, sources)
    ensures HoldsContents(after, rootPaths[i], sources[i].tree)
  {
    hide NodeAfter, VisitItem, SameContent;
    var t := sources[i].tree;
    forall rel: Path | Lookup(t, rel).Some?
      ensures Get(after, rootPaths[i] + rel).Some?
      ensures SameContent(Lookup(t, rel).value, Get(after, rootPaths[i] + rel).value)
    {
      assert Get(after, rootPaths[i] + rel) == LaidNode(fs, side, umask, rootPaths[i], t, rel);
      NodeAfterKeepsContent(side, umask, Get(fs, rootPaths[i] + rel), rootPaths[i], rel, Lookup(t, rel).value);
    }
  }

  lemma CopyHoldsContents(fs: FS, p: Path, umask: Mode, t: Tree)
    requires HoldsCopy(fs, p, umask, t)
    ensures HoldsContents(fs, p, t)
  {
    hide FreshNode, SameContent;
    forall rel: Path | Lookup(t, rel).Some?
      ensures Get(fs, p + rel).Some? && SameContent(Lookup(t, rel).value, Get(fs, p + rel).value)
    {
      assert Get(fs, p + rel) == Copied(umask, Lookup(t, rel));
      FreshNodeKeeps(umask, Lookup(t, rel).value);
    }
  }

  /** After a direct push every root verifies, whatever else its remote directory holds. */
  lemma DirectPushVerifies(h: Hash, hashed: bool, fs: FS, after: FS, umask: Mode, rootPaths: seq<Path>, sources: seq<Source>)
    requires |rootPaths| == |sources| && ValidSources(sources) && WellFormed(after)
    requires LaidOver(fs, after, Daemon, umask, rootPaths, sources)
    ensures forall i | 0 <= i < |sources| :: RemoteMatches(h, hashed, after, rootPaths[i], sources[i].tree)
  {
    hide LaidOver, RemoteMatches, ValidTree;
    forall i | 0 <= i < |sources|
      ensures RemoteMatches(h, hashed, after, rootPaths[i], sources[i].tree)
    {
      LaidHoldsContents(fs, after, Daemon, umask, rootPaths, sources, i);
      ContentsMatch(h, hashed, after, rootPaths[i], sources[i].tree);
    }
  }

  /** Where hashes match, kinds and sizes do. */
  lemma HashedMatchIsMatch(h: Hash, fs: FS, p: Path, t: Tree)
    requires WellFormed(fs) && ValidTree(t) && RemoteMatches(h, true, fs, p, t)
    ensures RemoteMatches(h, false, fs, p, t)
  {
    var found := TreeAt(fs, p);
    TreeAtHolds(fs, p);
    WalkSummarises(h, true, t);
    WalkSummarises(h, true, found);
    WalkSummarises(h, false, t);
    WalkSummarises(h, false, found);
    MatchByPath(h, true, t, found, Summary(h, true, t), Summary(h, true, found));
    MatchByPath(h, false, t, found, Summary(h, false, t), Summary(h, false, found));
    hide Summary, TreeAt, ValidTree, WellFormed, StatesMatch, Summarises;
    forall rel: Path
      ensures MatchesAt(h, false, t, found, rel)
    {
      assert MatchesAt(h, true, t, found, rel);
    }
  }

  ghost predicate SeenUnchanged(sources: seq<Source>, runs: seq<RootRun>) {
    |sources| == |runs| && forall i | 0 <= i < |sources| :: runs[i].seen == sources[i].tree
  }

  /** After a staged push every root verifies, whether it was uploaded or skipped. */
  lemma StagedPushVerifies(h: Hash, hashed: bool, fs: FS, umask: Mode, base: Path, finals: seq<Path>, sources: seq<Source>,
                           ifChanged: bool, runs: seq<RootRun>)
    requires StagingReady(fs, base, finals, sources, runs) && SeenUnchanged(sources, runs)
    requires NoneFailed(PushRoots(h, fs, umask, finals, ForestManifest(sources), ifChanged, runs, 0).1)
    ensures |finals| == |sources|
    ensures var after := PushRoots(h, fs, umask, finals, ForestManifest(sources), ifChanged, runs, 0).0;
            forall i | 0 <= i < |finals| :: RemoteMatches(h, hashed, after, finals[i], sources[i].tree)
  {
    hide PushRoots, ForestManifest, WellFormed, RemoteMatches, HoldsCopy, SameBelow, SameOrNewDir, NothingAt, TempOf;
    StagedPushReplaces(h, fs, umask, base, finals, sources, ifChanged, runs);
    var (after, rs) := PushRoots(h, fs, umask, finals, ForestManifest(sources), ifChanged, runs, 0);
    forall i | 0 <= i < |finals|
      ensures RemoteMatches(h, hashed, after, finals[i], sources[i].tree)
    {
      TreeIsValid(sources, runs, i);
      match rs[i]
      case Uploaded(_, _) =>
        CopyHoldsContents(after, finals[i], umask, sources[i].tree);
        ContentsMatch(h, hashed, after, finals[i], sources[i].tree);
      case Skipped =>
        MatchesAlike(h, fs, after, finals[i], runs[i].seen);
        if !hashed {
          HashedMatchIsMatch(h, after, finals[i], sources[i].tree);
        }
    }
  }

  lemma TreeIsValid(sources: seq<Source>, runs: seq<RootRun>, i: nat)
    requires UnchangedRun(sources, runs) && i < |sources|
    ensures ValidTree(sources[i].tree)
  {
    assert SourceUnchanged(sources[i], runs[i].upload);
  }

  // ---------------------------------------------------------------------
  // Resolving the roots again
  // ---------------------------------------------------------------------

  /** One directory goes to a path that is no directory yet, with no trailing slash. */
  predicate WillNest(fs: FS, destination: Destination, roots: seq<TransferRoot>) {
    |roots| == 1 && roots[0].kind.DirectoryEntry? && !destination.trailingSlash && !IsDir(fs, destination.path)
  }

  ghost predicate OutsideAll(finals: seq<Path>, q: Path) {
    forall i | 0 <= i < |finals| :: !(finals[i] <= q)
  }

  /** Each root path now holds its root's kind, and elsewhere only directories are new. */
  ghost predicate RootsWritten(fs: FS, after: FS, umask: Mode, finals: seq<Path>, roots: seq<TransferRoot>) {
    |finals| == |roots| && WellFormed(after) &&
    (forall i | 0 <= i < |finals| :: finals[i] in after && KindOf(after[finals[i]]) == roots[i].kind) &&
    forall q | OutsideAll(finals, q) ::
      Get(after, q) == Get(fs, q) || (q !in fs && Get(after, q) == Some(DirNode(DirDefault(umask))))
  }

  /**
   Resolving the same destination once more gives the same roots exactly when the transfer did not itself create
   the directory it was asked to write to; otherwise the second resolution is one level too deep.
   */
  lemma RootsResolveAgain(fs: FS, after: FS, umask: Mode, destination: Destination, roots: seq<TransferRoot>)
    requires WellFormed(fs) && PredictedRoots(fs, Some(destination), roots).Ok?
    requires RootsWritten(fs, after, umask, PredictedRoots(fs, Some(destination), roots).value, roots)
    ensures PredictedRoots(after, Some(destination), roots).Ok?
    ensures PredictedRoots(after, Some(destination), roots) == PredictedRoots(fs, Some(destination), roots) <==>
            !WillNest(fs, destination, roots)
    ensures WillNest(fs, destination, roots) ==>
              PredictedRoots(fs, Some(destination), roots) == Ok([destination.path]) &&
              PredictedRoots(after, Some(destination), roots) == Ok([destination.path + [roots[0].sourceName]])
  {
    hide JoinNames, RepeatedName, FileAbove;
    var finals := PredictedRoots(fs, Some(destination), roots).value;
    var d := destination.path;
    if |roots| == 1 {
      assert finals == [d] || finals == [d + [roots[0].sourceName]];
      assert finals[0] in after;
      if finals == [d] {
        NoFileAboveExisting(after, d);
      } else {
        BelowIsApart(d, roots[0].sourceName);
        assert OutsideAll(finals, d);
        PrefixesAreDirs(after, finals[0], d);
        NoFileAboveExisting(after, d);
      }
    } else if roots != [] {
      ManyRootsAgain(fs, after, umask, destination, roots);
    } else {
      NoRootsAgain(fs, after, umask, destination, finals);
    }
  }

  lemma BelowIsApart(d: Path, name: Name)
    ensures d < d + [name] && !(d + [name] <= d) && [d] != [d + [name]]
  {
    assert |[d][0]| != |[d + [name]][0]|;
  }

  lemma ManyRootsAgain(fs: FS, after: FS, umask: Mode, destination: Destination, roots: seq<TransferRoot>)
    requires WellFormed(fs) && PredictedRoots(fs, Some(destination), roots).Ok? && |roots| > 1
    requires RootsWritten(fs, after, umask, PredictedRoots(fs, Some(destination), roots).value, roots)
    ensures PredictedRoots(after, Some(destination), roots) == PredictedRoots(fs, Some(destination), roots)
  {
    hide RepeatedName, FileAbove;
    var finals := PredictedRoots(fs, Some(destination), roots).value;
    var d := destination.path;
    assert finals[0] == d + [roots[0].sourceName] && finals[0] in after;
    PrefixesAreDirs(after, finals[0], d);
    NoFileAboveExisting(after, d);
  }

  lemma NoRootsAgain(fs: FS, after: FS, umask: Mode, destination: Destination, finals: seq<Path>)
    requires WellFormed(fs) && PredictedRoots(fs, Some(destination), []) == Ok(finals)
    requires RootsWritten(fs, after, umask, finals, [])
    ensures PredictedRoots(after, Some(destination), []) == PredictedRoots(fs, Some(destination), [])
  {
    hide RepeatedName;
    var d := destination.path;
    assert finals == [];
    forall q
      ensures Get(after, q) == Get(fs, q) || (q !in fs && Get(after, q) == Some(DirNode(DirDefault(umask))))
    {
      assert OutsideAll(finals, q);
    }
    assert Get(after, d) == Get(fs, d) || Get(after, d) == Some(DirNode(DirDefault(umask)));
    forall k | 0 <= k < |d|
      ensures !IsFile(after, d[..k])
    {
      if d in fs {
        NoFileAboveExisting(fs, d);
      }
      assert Get(after, d[..k]) == Get(fs, d[..k]) || Get(after, d[..k]) == Some(DirNode(DirDefault(umask)));
      assert !IsFile(fs, d[..k]);
    }
  }

  // ---------------------------------------------------------------------
  // No tree contains itself
  // ---------------------------------------------------------------------

  ghost function Height(t: Tree): nat
    decreases t, 1
  {
    if t.DirTree? then HeightEach(t.children) + 1 else 0
  }

  ghost function HeightEach(cs: seq<Child>): nat
    decreases cs, 0
  {
    if cs == [] then 0
    else
      var first, later := Height(cs[0].tree), HeightEach(cs[1..]);
      if first < later then later else first
  }

  lemma {:induction false} ChildHeight(cs: seq<Child>, c: Child)
    requires c in cs
    ensures Height(c.tree) <= HeightEach(cs)
  {
    if c != cs[0] {
      ChildHeight(cs[1..], c);
    }
  }

  lemma {:induction false} PathsAreShort(t: Tree, rel: Path)
    requires Lookup(t, rel).Some?
    ensures |rel| <= Height(t)
    decreases |rel|
  {
    if rel != [] {
      FindChildIn(t.children, rel[0]);
      var c := FindChild(t.children, rel[0]).value;
      ChildHeight(t.children, Child(rel[0], c));
      PathsAreShort(c, rel[1..]);
    }
  }

  ghost function Repeated(name: Name, k: nat): (p: Path)
    ensures |p| == k
  {
    if k == 0 then [] else [name] + Repeated(name, k - 1)
  }

  /** If every path of `t` also stood below `name` in `t`, then `name/name/...` would go on forever. */
  lemma {:induction false} NestedForever(t: Tree, name: Name, k: nat)
    requires forall rel: Path :: Lookup(t, rel).Some? ==> Lookup(t, [name] + rel).Some?
    ensures Lookup(t, Repeated(name, k)).Some?
  {
    if k > 0 {
      NestedForever(t, name, k - 1);
    }
  }

  lemma NotInsideItself(fs: FS, p: Path, name: Name, t: Tree) returns (rel: Path)
    requires forall rel: Path :: Get(fs, p + rel).Some? <==> Lookup(t, rel).Some?
    ensures Lookup(t, rel).Some? && Get(fs, p + [name] + rel).None?
  {
    if forall rel: Path :: Lookup(t, rel).Some? ==> Get(fs, p + [name] + rel).Some? {
      forall rel: Path | Lookup(t, rel).Some?
        ensures Lookup(t, [name] + rel).Some?
      {
        assert p + ([name] + rel) == p + [name] + rel;
        assert Get(fs, p + ([name] + rel)).Some? <==> Lookup(t, [name] + rel).Some?;
      }
      NestedForever(t, name, Height(t) + 1);
      PathsAreShort(t, Repeated(name, Height(t) + 1));
      assert false;
    }
    rel :| Lookup(t, rel).Some? && Get(fs, p + [name] + rel).None?;
  }

  /** Compared one level too deep, a transferred tree does not match itself. */
  lemma NestedNeverMatches(h: Hash, hashed: bool, fs: FS, p: Path, name: Name, t: Tree)
    requires WellFormed(fs) && ValidTree(t)
    requires forall rel: Path :: Get(fs, p + rel).Some? <==> Lookup(t, rel).Some?
    ensures !RemoteMatches(h, hashed, fs, p + [name], t)
  {
    var q := p + [name];
    var rel := NotInsideItself(fs, p, name, t);
    if q in fs {
      var found := TreeAt(fs, q);
      TreeAtHolds(fs, q);
      WalkSummarises(h, hashed, t);
      WalkSummarises(h, hashed, found);
      MatchByPath(h, hashed, t, found, Summary(h, hashed, t), Summary(h, hashed, found));
      assert Get(fs, q + rel) == Lookup(found, rel);
      assert !MatchesAt(h, hashed, t, found, rel);
    }
  }

  // ---------------------------------------------------------------------
  // Pushing again
  // ---------------------------------------------------------------------

  /** If every root's probe is answered and matches, everything is skipped and nothing changes. */
  lemma {:induction false} MatchingRunSkips(h: Hash, fs: FS, umask: Mode, finals: seq<Path>, m: BatchManifest,
                                            runs: seq<RootRun>, i: nat)
    requires WellFormed(fs) && Fitting(finals, m, runs) && i <= |finals|
    requires forall j | i <= j < |finals| :: runs[j].probed && RemoteMatches(h, true, fs, finals[j], runs[j].seen)
    ensures var (after, rs) := PushRoots(h, fs, umask, finals, m, true, runs, i);
            after == fs && |rs| == |finals| - i && AllSkipped(rs) && Entries(rs) == 0 && Bytes(rs) == 0
    decreases |finals| - i
  {
    hide StageRoot, StatesMatch, Summary, SingleRoot, WellFormed;
    if i < |finals| {
      ProbeAnswers(fs, finals[i]);
      ExistingIsClear(fs, finals[i]);
      MatchingRunSkips(h, fs, umask, finals, m, runs, i + 1);
    }
  }

  /** The second run's circumstances: every probe is answered, and the local trees are still the same. */
  ghost predicate AskedAgain(sources: seq<Source>, again: seq<RootRun>) {
    |again| == |sources| && forall i | 0 <= i < |sources| :: again[i].probed && again[i].seen == sources[i].tree
  }

  /**
   Repeating a successful if-changed push with nothing changed skips every root, writes no entries and no bytes and
   leaves the remote tree as it was - exactly when the first push did not create the very directory it was given as
   destination. In that case the second run looks one level deeper, finds no match, and pushes again.
   */
  lemma SecondPushSkipsIff(h: Hash, fs: FS, umask: Mode, destination: Destination, base: Path, finals: seq<Path>,
                           sources: seq<Source>, runs: seq<RootRun>, again: seq<RootRun>)
    requires PredictedRoots(fs, Some(destination), RootsOf(sources)) == Ok(finals)
    requires StagingReady(fs, base, finals, sources, runs) && SeenUnchanged(sources, runs) && AskedAgain(sources, again)
    requires NoneFailed(PushRoots(h, fs, umask, finals, ForestManifest(sources), true, runs, 0).1)
    ensures var m := ForestManifest(sources);
            var after := PushRoots(h, fs, umask, finals, m, true, runs, 0).0;
            var finals' := PredictedRoots(after, Some(destination), RootsOf(sources));
            finals'.Ok? && Fitting(finals'.value, m, again) &&
            var (later, rs) := PushRoots(h, after, umask, finals'.value, m, true, again, 0);
            (AllSkipped(rs) <==> !WillNest(fs, destination, RootsOf(sources))) &&
            (AllSkipped(rs) ==> later == after && Entries(rs) == 0 && Bytes(rs) == 0)
  {
    hide *;
    var m := ForestManifest(sources);
    ReadyMeans(fs, base, finals, sources, runs);
    var (after, rs) := PushRoots(h, fs, umask, finals, m, true, runs, 0);
    StagedPushReplaces(h, fs, umask, base, finals, sources, true, runs);
    StagedPushVerifies(h, true, fs, umask, base, finals, sources, true, runs);
    PushedRootsWritten(h, fs, after, umask, base, finals, sources, runs, rs);
    RootsResolveAgain(fs, after, umask, destination, RootsOf(sources));
    var finals' := PredictedRoots(after, Some(destination), RootsOf(sources));
    var base' := ResolvedRootsAreSiblings(after, Some(destination), RootsOf(sources));
    StillFitting(finals, finals'.value, base', m, sources, runs, again);
    if WillNest(fs, destination, RootsOf(sources)) {
      NestedRunUploads(h, fs, after, umask, destination, finals, sources, runs, again, rs);
      FirstNotSkipped(h, after, umask, finals'.value, m, again);
    } else {
      AgainMatches(h, after, finals, sources, again);
      MatchingRunSkips(h, after, umask, finals, m, again, 0);
    }
  }

  lemma ReadyMeans(fs: FS, base: Path, finals: seq<Path>, sources: seq<Source>, runs: seq<RootRun>)
    requires StagingReady(fs, base, finals, sources, runs)
    ensures WellFormed(fs) && Fitting(finals, ForestManifest(sources), runs) && |finals| == |sources| == |runs|
    ensures |RootsOf(sources)| == |sources|
    ensures forall i | 0 <= i < |sources| :: ValidTree(sources[i].tree)
  {
    forall i | 0 <= i < |sources|
      ensures ValidTree(sources[i].tree)
    {
      TreeIsValid(sources, runs, i);
    }
  }

  lemma StillFitting(finals: seq<Path>, finals': seq<Path>, base: Path, m: BatchManifest, sources: seq<Source>,
                     runs: seq<RootRun>, again: seq<RootRun>)
    requires Fitting(finals, m, runs) && |sources| == |finals| == |finals'| && Siblings(finals', base)
    requires AskedAgain(sources, again)
    ensures Fitting(finals', m, again)
  {
  }

  lemma AgainMatches(h: Hash, after: FS, finals: seq<Path>, sources: seq<Source>, again: seq<RootRun>)
    requires |finals| == |sources| && AskedAgain(sources, again)
    requires forall i | 0 <= i < |finals| :: RemoteMatches(h, true, after, finals[i], sources[i].tree)
    ensures |again| == |finals|
    ensures forall j | 0 <= j < |finals| :: again[j].probed && RemoteMatches(h, true, after, finals[j], again[j].seen)
  {
    hide RemoteMatches;
  }

  lemma MatchHasKind(h: Hash, fs: FS, p: Path, t: Tree)
    requires WellFormed(fs) && ValidTree(t) && RemoteMatches(h, true, fs, p, t)
    ensures p in fs && KindOf(fs[p]) == KindOf(NodeOf(t))
  {
    var found := TreeAt(fs, p);
    TreeAtHolds(fs, p);
    WalkSummarises(h, true, t);
    WalkSummarises(h, true, found);
    MatchByPath(h, true, t, found, Summary(h, true, t), Summary(h, true, found));
    assert MatchesAt(h, true, t, found, []);
    assert Get(fs, p + []) == Lookup(found, []);
    assert p + [] == p;
  }

  lemma PushedRootsWritten(h: Hash, fs: FS, after: FS, umask: Mode, base: Path, finals: seq<Path>, sources: seq<Source>,
                           runs: seq<RootRun>, rs: seq<RootResult>)
    requires |finals| == |sources| && WellFormed(after)
    requires forall i | 0 <= i < |sources| :: ValidTree(sources[i].tree)
    requires forall i | 0 <= i < |finals| :: RemoteMatches(h, true, after, finals[i], sources[i].tree)
    requires forall q | (forall i | 0 <= i < |finals| :: !(finals[i] <= q)) :: SameOrNewDir(fs, after, umask, base, q)
    ensures RootsWritten(fs, after, umask, finals, RootsOf(sources))
  {
    hide WellFormed, RemoteMatches, ValidTree;
    forall i | 0 <= i < |finals|
      ensures finals[i] in after && KindOf(after[finals[i]]) == RootsOf(sources)[i].kind
    {
      MatchHasKind(h, after, finals[i], sources[i].tree);
    }
    forall q | OutsideAll(finals, q)
      ensures Get(after, q) == Get(fs, q) || (q !in fs && Get(after, q) == Some(DirNode(DirDefault(umask))))
    {
      assert SameOrNewDir(fs, after, umask, base, q);
    }
  }

  /** In the nesting case the only root was uploaded, and does not match one level deeper. */
  lemma NestedRunUploads(h: Hash, fs: FS, after: FS, umask: Mode, destination: Destination, finals: seq<Path>,
                         sources: seq<Source>, runs: seq<RootRun>, again: seq<RootRun>, rs: seq<RootResult>)
    requires WillNest(fs, destination, RootsOf(sources)) && finals == [destination.path]
    requires WellFormed(fs) && WellFormed(after) && |sources| == |finals| == |runs| == |rs| && ValidTree(sources[0].tree)
    requires SeenUnchanged(sources, runs) && AskedAgain(sources, again)
    requires match rs[0]
             case Uploaded(_, _) => HoldsCopy(after, finals[0], umask, sources[0].tree)
             case Skipped => RemoteMatches(h, true, fs, finals[0], runs[0].seen)
             case FailedAt(_) => false
    ensures |again| == 1 && again[0].probed && rs[0].Uploaded?
    ensures !RemoteMatches(h, true, after, destination.path + [sources[0].name], again[0].seen)
    ensures RootsOf(sources)[0].sourceName == sources[0].name
  {
    hide WellFormed, RemoteMatches, ValidTree, HoldsCopy;
    var t := sources[0].tree;
    assert RootsOf(sources)[0] == RootOf(sources[0]);
    if rs[0].Skipped? {
      MatchHasKind(h, fs, finals[0], t);
      assert false;
    }
    CopyShape(after, finals[0], umask, t);
    NestedNeverMatches(h, true, after, finals[0], sources[0].name, t);
  }

  lemma CopyShape(fs: FS, p: Path, umask: Mode, t: Tree)
    requires HoldsCopy(fs, p, umask, t)
    ensures forall rel: Path :: Get(fs, p + rel).Some? <==> Lookup(t, rel).Some?
  {
    forall rel: Path
      ensures Get(fs, p + rel).Some? <==> Lookup(t, rel).Some?
    {
      assert Get(fs, p + rel) == Copied(umask, Lookup(t, rel));
    }
  }

  lemma FirstNotSkipped(h: Hash, fs: FS, umask: Mode, finals: seq<Path>, m: BatchManifest, runs: seq<RootRun>)
    requires Fitting(finals, m, runs) && |finals| > 0 && !RemoteMatches(h, true, fs, finals[0], runs[0].seen)
    ensures !AllSkipped(PushRoots(h, fs, umask, finals, m, true, runs, 0).1)
  {
    hide RemoteMatches, SingleRoot, PushBatch, Move, Rm;
    var (next, r) := PushRoot(h, fs, umask, finals[0], 0, SingleRoot(m, 0), true, runs[0]);
    assert !r.Skipped?;
    assert PushRoots(h, fs, umask, finals, m, true, runs, 0).1[0] == r;
  }
}
