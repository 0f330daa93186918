/**
 Staging one root of an agent push: upload to a fresh path beside the final
 one, then move it into place, or clean up.
 */
module Staging {
  import opened Base
  import opened Paths
  import opened Trees
  import opened FileSystem
  import opened FileOps
  import opened Manifest
  import opened Overlay
  import opened Receiver
  import opened Roots
  import opened Forest
  import opened Pull
  import opened Transfer
  import opened Push
  import opened States

  // ---------------------------------------------------------------------
  // The staging path
  // ---------------------------------------------------------------------

  const DIGITS := "0123456789"

  function Decimal(n: nat): (s: string)
    ensures s != "" && forall c | c in s :: c in DIGITS
  {
    (if n < 10 then "" else Decimal(n / 10)) + [DIGITS[n % 10]]
  }

  function StagedName(name: Name, nonce: nat, index: nat): Name {
    StagedNameValid(name, nonce, index);
    "." + name + ".rsdb-transfer-" + Decimal(nonce) + "-" + Decimal(index)
  }

  lemma StagedNameValid(name: Name, nonce: nat, index: nat)
    ensures ValidName("." + name + ".rsdb-transfer-" + Decimal(nonce) + "-" + Decimal(index))
  {
    assert '/' !in DIGITS;
  }

  /** staged_remote_transfer_path: a hidden sibling of the final path. */
  function StagedPath(final: Path, nonce: nat, index: nat): Path
    requires final != []
  {
    Parent(final) + [StagedName(final[|final| - 1], nonce, index)]
  }

  /** The staging path lies beside the final path, never at, above or below it. */
  lemma StagedPathIsSibling(final: Path, nonce: nat, index: nat)
    requires final != []
    ensures var temp := StagedPath(final, nonce, index);
            temp != [] && Parent(temp) == Parent(final) && |temp| == |final| && !(temp <= final) && !(final <= temp)
  {
    var temp, name := StagedPath(final, nonce, index), final[|final| - 1];
    assert |StagedName(name, nonce, index)| > |name|;
    assert temp[|temp| - 1] == StagedName(name, nonce, index);
  }

  function DigitAt(s: string, i: nat): nat
    requires i < |s|
  {
    if s[i] in DIGITS then s[i] as int - '0' as int else 0
  }

  /** The last digit, and what it is the last digit of. */
  lemma DecimalEnds(n: nat)
    ensures var s := Decimal(n);
            DigitAt(s, |s| - 1) == n % 10 && s[..|s| - 1] == if n < 10 then "" else Decimal(n / 10)
  {
    assert forall k | 0 <= k < 10 :: DIGITS[k] as int - '0' as int == k;
  }

  lemma {:induction false} DecimalInjective(n: nat, m: nat)
    requires Decimal(n) == Decimal(m)
    ensures n == m
    decreases n
  {
    DecimalEnds(n);
    DecimalEnds(m);
    hide Decimal;
    if n >= 10 && m >= 10 {
      DecimalInjective(n / 10, m / 10);
    }
  }

  lemma LastDash(a: string, x: string)
    requires '-' !in x
    ensures var s := a + "-" + x;
            |a| < |s| && s[|a|] == '-' && forall n | |a| < n < |s| :: s[n] != '-'
  {
    var s := a + "-" + x;
    forall n | |a| < n < |s|
      ensures s[n] != '-'
    {
      assert s[n] == x[n - |a| - 1];
    }
  }

  /** The part behind the last dash can be told from what is in front of it. */
  lemma LastDashSplits(a: string, x: string, b: string, y: string)
    requires '-' !in x && '-' !in y && a + "-" + x == b + "-" + y
    ensures a == b && x == y
  {
    var s := a + "-" + x;
    LastDash(a, x);
    LastDash(b, y);
    assert |a| == |b|;
    assert s[..|a|] == a && (b + "-" + y)[..|b|] == b;
    assert s[|a| + 1..] == x && (b + "-" + y)[|b| + 1..] == y;
  }

  lemma NoDashInDecimal(n: nat)
    ensures '-' !in Decimal(n)
  {
    hide Decimal;
    assert '-' !in DIGITS;
  }

  /** No two staging paths are the same unless final path, nonce and index are; their names begin with a dot. */
  lemma StagedPathsDiffer(final: Path, nonce: nat, index: nat, final': Path, nonce': nat, index': nat)
    requires final != [] && final' != []
    ensures StagedPath(final, nonce, index) == StagedPath(final', nonce', index') ==>
              final == final' && nonce == nonce' && index == index'
    ensures StagedPath(final, nonce, index)[|final| - 1][0] == '.'
  {
    hide Decimal;
    var p, p' := StagedPath(final, nonce, index), StagedPath(final', nonce', index');
    var name, name' := final[|final| - 1], final'[|final'| - 1];
    assert p[|p| - 1] == StagedName(name, nonce, index) && p'[|p'| - 1] == StagedName(name', nonce', index');
    if p == p' {
      NamesDiffer(name, nonce, index, name', nonce', index');
      assert p[..|p| - 1] == Parent(final) && p'[..|p'| - 1] == Parent(final');
      assert final == Parent(final) + [name] && final' == Parent(final') + [name'];
    }
  }

  lemma NamesDiffer(name: Name, nonce: nat, index: nat, name': Name, nonce': nat, index': nat)
    requires StagedName(name, nonce, index) == StagedName(name', nonce', index')
    ensures name == name' && nonce == nonce' && index == index'
  {
    hide Decimal;
    NoDashInDecimal(index);
    NoDashInDecimal(index');
    NoDashInDecimal(nonce);
    NoDashInDecimal(nonce');
    var head, head' := "." + name + ".rsdb-transfer", "." + name' + ".rsdb-transfer";
    assert StagedName(name, nonce, index) == head + "-" + Decimal(nonce) + "-" + Decimal(index);
    assert StagedName(name', nonce', index') == head' + "-" + Decimal(nonce') + "-" + Decimal(index');
    LastDashSplits(head + "-" + Decimal(nonce), Decimal(index), head' + "-" + Decimal(nonce'), Decimal(index'));
    LastDashSplits(head, Decimal(nonce), head', Decimal(nonce'));
    DecimalInjective(index, index');
    DecimalInjective(nonce, nonce');
    assert |head| == |name| + 15 && |head'| == |name'| + 15;
    assert head[1..|name| + 1] == name && head'[1..|name'| + 1] == name';
  }

  // ---------------------------------------------------------------------
  // A copy where nothing was
  // ---------------------------------------------------------------------

  /** The node unpacking leaves for `n` where nothing was: `n` itself, but for a mode of zero. */
  function FreshNode(umask: Mode, n: Node): Node {
    NodeAfter(Daemon, umask, None, VisitItem([], Visit([], n)))
  }

  lemma FreshNodeKeeps(umask: Mode, n: Node)
    ensures SameContent(n, FreshNode(umask, n)) && KindOf(FreshNode(umask, n)) == KindOf(n)
    ensures n.mode != 0 ==> FreshNode(umask, n) == n
  {
  }

  function Copied(umask: Mode, n: Option<Node>): Option<Node> {
    match n case None => None case Some(node) => Some(FreshNode(umask, node))
  }

  /** The subtree at `p` is exactly a copy of `t`: no path missing, none extra. */
  ghost predicate HoldsCopy(fs: FS, p: Path, umask: Mode, t: Tree) {
    forall rel: Path :: Get(fs, p + rel) == Copied(umask, Lookup(t, rel))
  }

  lemma CopyWithModesIsExact(fs: FS, p: Path, umask: Mode, t: Tree)
    requires HoldsCopy(fs, p, umask, t) && ModesSet(t)
    ensures Holds(fs, p, t)
  {
    forall rel: Path
      ensures Get(fs, p + rel) == Lookup(t, rel)
    {
      assert Get(fs, p + rel) == Copied(umask, Lookup(t, rel));
      if Lookup(t, rel).Some? {
        FreshNodeKeeps(umask, Lookup(t, rel).value);
      }
    }
  }

  /** As before, or a new default directory at or above `base`. */
  ghost predicate SameOrNewDir(fs: FS, after: FS, umask: Mode, base: Path, q: Path) {
    Get(after, q) == Get(fs, q) || (q !in fs && q <= base && Get(after, q) == Some(DirNode(DirDefault(umask))))
  }

  lemma SameOrNewDirTrans(a: FS, b: FS, c: FS, umask: Mode, base: Path, q: Path)
    requires SameOrNewDir(a, b, umask, base, q) && SameOrNewDir(b, c, umask, base, q)
    ensures SameOrNewDir(a, c, umask, base, q)
  {
  }

  /** Only paths at or below `p` may differ, and directories above it may be new. */
  ghost predicate OnlyAt(fs: FS, after: FS, umask: Mode, p: Path)
    requires p != []
  {
    forall q | !(p <= q) :: SameOrNewDir(fs, after, umask, Parent(p), q)
  }

  ghost predicate OnlyNewDirs(fs: FS, after: FS, umask: Mode, base: Path) {
    forall q :: SameOrNewDir(fs, after, umask, base, q)
  }

  lemma LaidFresh(fs: FS, after: FS, umask: Mode, p: Path, source: Source)
    requires WellFormed(fs) && p != [] && p !in fs && LaidOver(fs, after, Daemon, umask, [p], [source])
    ensures HoldsCopy(after, p, umask, source.tree) && OnlyAt(fs, after, umask, p)
  {
    forall rel: Path
      ensures Get(after, p + rel) == Copied(umask, Lookup(source.tree, rel))
    {
      assert Get(after, [p][0] + rel) == LaidNode(fs, Daemon, umask, [p][0], [source][0].tree, rel);
      NothingBelow(fs, p, rel);
    }
    forall q | !(p <= q)
      ensures SameOrNewDir(fs, after, umask, Parent(p), q)
    {
      PrefixCases(q, p);
      assert forall i | 0 <= i < |[p]| :: !([p][i] <= q);
    }
  }

  // ---------------------------------------------------------------------
  // Uploading one source to a path
  // ---------------------------------------------------------------------

  /** One source alone, for the push of one root. */
  ghost predicate SourceUnchanged(source: Source, a: Attempt) {
    ValidTree(source.tree) && Unchanged([source], a.fileReads)
  }

  /**
   Uploading a source to a path that does not exist succeeds exactly when no file stands above the path and the
   exchange came through; then a copy stands there, and otherwise at most new directories are above it.
   */
  lemma UploadExact(fs: FS, umask: Mode, temp: Path, source: Source, a: Attempt)
    requires WellFormed(fs) && temp != [] && temp !in fs && SourceUnchanged(source, a)
    ensures var m := ForestManifest([source]);
            var r := PushBatch(fs, umask, Some(Destination(temp, false)), m, a);
            (r.Pushed? <==> !FileAbove(fs, temp) && FullyDelivered(m, a)) &&
            WellFormed(r.fs) && OnlyAt(fs, r.fs, umask, temp) &&
            (r.Pushed? ==> r.entries == |m.entries| && r.bytes == m.totalBytes && HoldsCopy(r.fs, temp, umask, source.tree))
  {
    hide *;
    var destination, m := Destination(temp, false), ForestManifest([source]);
    var r := PushBatch(fs, umask, Some(destination), m, a);
    FreshDestination(fs, temp, source);
    UploadTouches(fs, umask, temp, source, a);
    PushedMeansDelivered(fs, umask, Some(destination), m, a);
    if !FileAbove(fs, temp) && FullyDelivered(m, a) {
      DeliveredMeans(source, a);
      ValidOne(source, a);
      PushRoundTrip(fs, umask, Some(destination), [temp], [source], a);
      FreshWayIsClear(fs, temp, source);
      LaidFresh(fs, r.fs, umask, temp, source);
    }
  }

  lemma FreshDestination(fs: FS, temp: Path, source: Source)
    requires temp !in fs
    ensures ForestManifest([source]).roots == RootsOf([source])
    ensures !FileAbove(fs, temp) ==> DaemonRoots(fs, Some(Destination(temp, false)), RootsOf([source])) == Ok([temp])
    ensures FileAbove(fs, temp) ==> DaemonRoots(fs, Some(Destination(temp, false)), RootsOf([source])).Err?
  {
    var roots := RootsOf([source]);
    assert |roots| == 1 && roots[1..] == [];
    RepeatedNameNone(roots, {});
  }

  lemma UploadTouches(fs: FS, umask: Mode, temp: Path, source: Source, a: Attempt)
    requires WellFormed(fs) && temp != [] && temp !in fs
    ensures var after := PushBatch(fs, umask, Some(Destination(temp, false)), ForestManifest([source]), a).fs;
            WellFormed(after) && OnlyAt(fs, after, umask, temp)
    ensures FileAbove(fs, temp) ==>
              PushBatch(fs, umask, Some(Destination(temp, false)), ForestManifest([source]), a).NotPushed?
  {
    hide DaemonRoots, ReceiveBatch, ForestManifest, FileAbove, WellFormed;
    var m := ForestManifest([source]);
    var after := PushBatch(fs, umask, Some(Destination(temp, false)), m, a).fs;
    FreshDestination(fs, temp, source);
    PushTouchesRoots(fs, umask, Some(Destination(temp, false)), m, a);
    if !FileAbove(fs, temp) {
      forall q | !(temp <= q)
        ensures SameOrNewDir(fs, after, umask, Parent(temp), q)
      {
        PrefixCases(q, temp);
        assert forall i | 0 <= i < |[temp]| :: !([temp][i] <= q);
      }
    } else {
      hide PushBatch;
      NothingReceived(fs, umask, temp, m, a);
    }
  }

  lemma NothingReceived(fs: FS, umask: Mode, temp: Path, m: BatchManifest, a: Attempt)
    requires DaemonRoots(fs, Some(Destination(temp, false)), m.roots).Err?
    ensures PushBatch(fs, umask, Some(Destination(temp, false)), m, a) == NotPushed(fs)
  {
  }

  lemma PushedMeansDelivered(fs: FS, umask: Mode, destination: Option<Destination>, m: BatchManifest, a: Attempt)
    ensures PushBatch(fs, umask, destination, m, a).Pushed? ==> FullyDelivered(m, a)
  {
  }

  lemma DeliveredMeans(source: Source, a: Attempt)
    requires FullyDelivered(ForestManifest([source]), a)
    ensures a.reached && a.acked
    ensures |Frames.Wire(PushStream(ForestManifest([source]), a.fileReads))| <= a.delivered
  {
  }

  lemma ValidOne(source: Source, a: Attempt)
    requires SourceUnchanged(source, a)
    ensures ValidSources([source]) && Unchanged([source], a.fileReads)
  {
  }

  lemma FreshWayIsClear(fs: FS, p: Path, source: Source)
    requires WellFormed(fs) && p !in fs && !FileAbove(fs, p)
    ensures ClearWay(fs, [p], [source])
    ensures |[p]| == |[source]|
    ensures [source][0] == source && [p][0] == p
  {
    forall i, rel | 0 <= i < 1 && Lookup([source][i].tree, rel).Some?
      ensures !Clashes(Get(fs, [p][i] + rel), KindOf(Lookup([source][i].tree, rel).value))
    {
      NothingBelow(fs, p, rel);
    }
  }

  // ---------------------------------------------------------------------
  // Replacing the final path
  // ---------------------------------------------------------------------

  /** A copy of `t` stands at `final`, nothing else of what was there; elsewhere at most new directories. */
  ghost predicate Replaced(fs: FS, after: FS, umask: Mode, final: Path, t: Tree)
    requires final != []
  {
    WellFormed(after) && HoldsCopy(after, final, umask, t) && OnlyAt(fs, after, umask, final)
  }

  /** Moving a finished upload into place always works, and leaves nothing at the staging path. */
  lemma MoveIntoPlace(fs: FS, uploaded: FS, umask: Mode, final: Path, temp: Path, t: Tree)
    requires WellFormed(fs) && WellFormed(uploaded) && temp !in fs && final != [] && temp != []
    requires Parent(temp) == Parent(final) && temp != final
    requires HoldsCopy(uploaded, temp, umask, t) && OnlyAt(fs, uploaded, umask, temp)
    ensures var (moved, r) := Move(uploaded, temp, final, true);
            r.Ok? && temp !in moved && Replaced(fs, moved, umask, final, t)
  {
    hide *;
    var (moved, r) := Move(uploaded, temp, final, true);
    SiblingsApart(temp, final);
    UploadedIsThere(uploaded, temp, umask, t);
    MoveToSibling(uploaded, temp, final);
    MoveExact(uploaded, temp, final, true);
    RelocatedCopy(uploaded, moved, umask, temp, final, t);
    RelocatedOutside(fs, uploaded, moved, umask, temp, final);
    IsReplaced(fs, moved, umask, final, t);
  }

  lemma IsReplaced(fs: FS, after: FS, umask: Mode, final: Path, t: Tree)
    requires final != [] && WellFormed(after) && HoldsCopy(after, final, umask, t) && OnlyAt(fs, after, umask, final)
    ensures Replaced(fs, after, umask, final, t)
  {
  }

  lemma SiblingsApart(p: Path, q: Path)
    requires p != [] && q != [] && p != q && Parent(p) == Parent(q)
    ensures |p| == |q| && !(p <= q) && !(q <= p)
  {
    assert |Parent(p)| == |p| - 1 && |Parent(q)| == |q| - 1;
  }

  lemma UploadedIsThere(uploaded: FS, temp: Path, umask: Mode, t: Tree)
    requires HoldsCopy(uploaded, temp, umask, t)
    ensures temp in uploaded
  {
    assert temp + [] == temp;
    assert Get(uploaded, temp + []) == Copied(umask, Lookup(t, []));
  }

  lemma MoveToSibling(uploaded: FS, temp: Path, final: Path)
    requires WellFormed(uploaded) && temp in uploaded && temp != [] && final != []
    requires Parent(temp) == Parent(final) && !(temp <= final) && !(final <= temp)
    ensures MoveFeasible(uploaded, temp, final)
  {
  }

  lemma RelocatedCopy(uploaded: FS, moved: FS, umask: Mode, temp: Path, final: Path, t: Tree)
    requires HoldsCopy(uploaded, temp, umask, t) && Relocated(uploaded, moved, temp, final)
    ensures HoldsCopy(moved, final, umask, t)
  {
    forall rel: Path
      ensures Get(moved, final + rel) == Copied(umask, Lookup(t, rel))
    {
      assert (final + rel)[|final|..] == rel;
      assert Get(moved, final + rel) == Get(uploaded, temp + rel);
    }
  }

  lemma RelocatedOutside(fs: FS, uploaded: FS, moved: FS, umask: Mode, temp: Path, final: Path)
    requires WellFormed(fs) && WellFormed(moved) && temp !in fs && temp != [] && final != []
    requires Parent(temp) == Parent(final) && !(temp <= final) && !(final <= temp)
    requires OnlyAt(fs, uploaded, umask, temp) && Relocated(uploaded, moved, temp, final)
    ensures OnlyAt(fs, moved, umask, final) && temp !in moved
  {
    assert Get(moved, temp) == None;
    forall q | !(final <= q)
      ensures SameOrNewDir(fs, moved, umask, Parent(final), q)
    {
      if temp <= q {
        assert q == temp + q[|temp|..];
        NothingBelow(fs, temp, q[|temp|..]);
      } else {
        assert SameOrNewDir(fs, uploaded, umask, Parent(temp), q);
      }
    }
  }

  /** Cleaning up removes whatever an interrupted upload left at the staging path. */
  lemma CleanUpExact(fs: FS, after: FS, umask: Mode, temp: Path)
    requires WellFormed(fs) && WellFormed(after) && temp != [] && temp !in fs && OnlyAt(fs, after, umask, temp)
    ensures WellFormed(Rm(after, temp, CLEANUP).0) && OnlyNewDirs(fs, Rm(after, temp, CLEANUP).0, umask, Parent(temp))
  {
    RmExact(after, temp, CLEANUP);
    hide Rm;
    if temp !in after {
      NothingBelowAbsent(after, temp);
    }
    forall q
      ensures SameOrNewDir(fs, Rm(after, temp, CLEANUP).0, umask, Parent(temp), q)
    {
      if temp <= q {
        assert q == temp + q[|temp|..];
        NothingBelow(fs, temp, q[|temp|..]);
      } else {
        assert SameOrNewDir(fs, after, umask, Parent(temp), q);
      }
    }
  }
}
