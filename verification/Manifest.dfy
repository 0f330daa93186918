/**
 Batch transfer manifests: how a forest of sources is flattened into roots,
 entries and files, and how a manifest is cut down to some of its roots.
 */
module Manifest {
  import opened Base
  import opened Paths
  import opened Trees

  datatype EntryKind = FileEntry | DirectoryEntry
  datatype TransferRoot = TransferRoot(sourceName: Name, kind: EntryKind, mode: nat)
  datatype TransferEntry = TransferEntry(rootIndex: nat, relativePath: string, kind: EntryKind, mode: nat, size: nat)
  datatype BatchFile = BatchFile(rootIndex: nat, path: Path, size: nat)
  datatype BatchManifest = BatchManifest(
    sources: seq<Path>, roots: seq<TransferRoot>, entries: seq<TransferEntry>, files: seq<BatchFile>, totalBytes: nat)
  datatype ManifestError = DuplicateRootName(name: Name) | InvalidRootIndex(index: nat)

  /** The tree found at `parent/name`. */
  datatype Source = Source(parent: Path, name: Name, tree: Tree) {
    function Path(): Path {
      parent + [name]
    }
  }

  ghost predicate ValidSources(sources: seq<Source>) {
    forall i | 0 <= i < |sources| :: ValidTree(sources[i].tree)
  }

  function KindOf(n: Node): EntryKind {
    if n.FileNode? then FileEntry else DirectoryEntry
  }

  function RootOf(s: Source): TransferRoot {
    TransferRoot(s.name, KindOf(NodeOf(s.tree)), s.tree.mode)
  }

  // ---------------------------------------------------------------------
  // What a walk contributes to a manifest
  // ---------------------------------------------------------------------

  /** The three things the walk accumulates. */
  datatype Tally = Tally(entries: seq<TransferEntry>, files: seq<BatchFile>, bytes: nat)

  function Plus(a: Tally, b: Tally): Tally {
    Tally(a.entries + b.entries, a.files + b.files, a.bytes + b.bytes)
  }

  function EntryOf(root: nat, v: Visit): TransferEntry {
    TransferEntry(root, PathText(v.path), KindOf(v.node), v.node.mode, if v.node.FileNode? then |v.node.data| else 0)
  }

  function TallyVisit(root: nat, base: Path, v: Visit): Tally {
    match v.node
    case FileNode(_, data) => Tally([EntryOf(root, v)], [BatchFile(root, base + v.path, |data|)], |data|)
    case DirNode(_) => Tally([EntryOf(root, v)], [], 0)
  }

  function TallyWalk(root: nat, base: Path, vs: seq<Visit>): Tally {
    if vs == [] then Tally([], [], 0) else Plus(TallyVisit(root, base, vs[0]), TallyWalk(root, base, vs[1..]))
  }

  lemma PlusNothing(a: Tally)
    ensures Plus(a, Tally([], [], 0)) == a
    ensures Plus(Tally([], [], 0), a) == a
  {
  }

  lemma PlusAssociative(a: Tally, b: Tally, c: Tally)
    ensures Plus(Plus(a, b), c) == Plus(a, Plus(b, c))
  {
    assert a.entries + b.entries + c.entries == a.entries + (b.entries + c.entries);
    assert a.files + b.files + c.files == a.files + (b.files + c.files);
  }

  lemma {:induction false} TallyAppend(root: nat, base: Path, a: seq<Visit>, b: seq<Visit>)
    ensures TallyWalk(root, base, a + b) == Plus(TallyWalk(root, base, a), TallyWalk(root, base, b))
  {
    hide TallyVisit, Plus;
    if a == [] {
      assert a + b == b;
      PlusNothing(TallyWalk(root, base, b));
    } else {
      assert (a + b)[1..] == a[1..] + b;
      assert (a + b)[0] == a[0];
      TallyAppend(root, base, a[1..], b);
      PlusAssociative(TallyVisit(root, base, a[0]), TallyWalk(root, base, a[1..]), TallyWalk(root, base, b));
    }
  }

  function OwnContent(v: Visit): seq<seq<Byte>> {
    if v.node.FileNode? then [v.node.data] else []
  }

  /** The file contents among the visits, in order. */
  function Contents(vs: seq<Visit>): seq<seq<Byte>> {
    if vs == [] then []
    else OwnContent(vs[0]) + Contents(vs[1..])
  }

  function FileSizes(files: seq<BatchFile>): seq<nat> {
    if files == [] then [] else [files[0].size] + FileSizes(files[1..])
  }

  lemma {:induction false} FileSizesAppend(a: seq<BatchFile>, b: seq<BatchFile>)
    ensures FileSizes(a + b) == FileSizes(a) + FileSizes(b)
  {
    if a == [] {
      assert a + b == b;
    } else {
      assert (a + b)[1..] == a[1..] + b;
      FileSizesAppend(a[1..], b);
    }
  }

  lemma {:induction false} ContentsAppend(a: seq<Visit>, b: seq<Visit>)
    ensures Contents(a + b) == Contents(a) + Contents(b)
  {
    if a == [] {
      assert a + b == b;
    } else {
      assert (a + b)[1..] == a[1..] + b;
      ContentsAppend(a[1..], b);
      var head := if a[0].node.FileNode? then [a[0].node.data] else [];
      assert head + (Contents(a[1..]) + Contents(b)) == head + Contents(a[1..]) + Contents(b);
    }
  }

  function FileEntries(entries: seq<TransferEntry>): seq<TransferEntry> {
    if entries == [] then []
    else (if entries[0].kind.FileEntry? then [entries[0]] else []) + FileEntries(entries[1..])
  }

  /** The file list is the file entries, in order, with their sizes. */
  ghost predicate FilesAgree(entries: seq<TransferEntry>, files: seq<BatchFile>) {
    var wanted := FileEntries(entries);
    |files| == |wanted| &&
    forall i | 0 <= i < |files| :: files[i].rootIndex == wanted[i].rootIndex && files[i].size == wanted[i].size
  }

  lemma {:induction false} FileEntriesAppend(a: seq<TransferEntry>, b: seq<TransferEntry>)
    ensures FileEntries(a + b) == FileEntries(a) + FileEntries(b)
  {
    if a == [] {
      assert a + b == b;
    } else {
      assert (a + b)[1..] == a[1..] + b;
      FileEntriesAppend(a[1..], b);
      var head := if a[0].kind.FileEntry? then [a[0]] else [];
      assert head + (FileEntries(a[1..]) + FileEntries(b)) == head + FileEntries(a[1..]) + FileEntries(b);
    }
  }

  lemma FilesAgreeAppend(a: seq<TransferEntry>, b: seq<TransferEntry>, fa: seq<BatchFile>, fb: seq<BatchFile>)
    requires FilesAgree(a, fa) && FilesAgree(b, fb)
    ensures FilesAgree(a + b, fa + fb)
  {
    FileEntriesAppend(a, b);
  }

  /** The tally of a walk: one entry a visit, one file a file visit, and the sum of the file lengths. */
  lemma {:induction false} TallyWalkShape(root: nat, base: Path, vs: seq<Visit>)
    ensures var t := TallyWalk(root, base, vs);
            |t.entries| == |vs| && (forall i | 0 <= i < |vs| :: t.entries[i] == EntryOf(root, vs[i])) &&
            FilesAgree(t.entries, t.files) &&
            FileSizes(t.files) == Lengths(Contents(vs)) &&
            t.bytes == Sum(FileSizes(t.files))
  {
    hide TallyVisit, FilesAgree, FileSizes, Lengths, Sum, PathText;
    if vs != [] {
      TallyWalkShape(root, base, vs[1..]);
      var first, later := TallyVisit(root, base, vs[0]), TallyWalk(root, base, vs[1..]);
      VisitShape(root, base, vs[0]);
      FilesAgreeAppend(first.entries, later.entries, first.files, later.files);
      FileSizesAppend(first.files, later.files);
      LengthsAppend(OwnContent(vs[0]), Contents(vs[1..]));
      SumAppend(FileSizes(first.files), FileSizes(later.files));
    } else {
      NoVisitShape();
    }
  }

  lemma VisitShape(root: nat, base: Path, v: Visit)
    ensures var t := TallyVisit(root, base, v);
            t.entries == [EntryOf(root, v)] && FilesAgree(t.entries, t.files) &&
            FileSizes(t.files) == Lengths(OwnContent(v)) && t.bytes == Sum(FileSizes(t.files))
  {
    hide PathText;
    var t := TallyVisit(root, base, v);
    assert t.entries[1..] == [];
    assert FileEntries(t.entries) == if v.node.FileNode? then [EntryOf(root, v)] else [];
    if v.node.FileNode? {
      assert t.files[1..] == [] && OwnContent(v)[1..] == [];
    }
  }

  lemma NoVisitShape()
    ensures FilesAgree([], []) && FileSizes([]) == Lengths<Byte>([]) == [] && Sum([]) == 0
  {
  }

  /** The canonical walk of one source, relative to its root. */
  function SourceVisits(t: Tree): seq<Visit> {
    Walk(Canon(t), [])
  }

  lemma SourceVisitSound(t: Tree, v: Visit)
    requires ValidTree(t) && v in SourceVisits(t)
    ensures Lookup(t, v.path) == Some(v.node)
  {
    CanonSorted(t);
    SortedTreeIsValid(Canon(t));
    WalkSound(Canon(t), [], v);
    CanonLookup(t, v.path);
    assert v.path[0..] == v.path;
  }

  function ForestTally(sources: seq<Source>, from: nat): Tally {
    if sources == [] then Tally([], [], 0)
    else Plus(TallyWalk(from, sources[0].Path(), SourceVisits(sources[0].tree)), ForestTally(sources[1..], from + 1))
  }

  function ForestContents(sources: seq<Source>): seq<seq<Byte>> {
    if sources == [] then []
    else Contents(SourceVisits(sources[0].tree)) + ForestContents(sources[1..])
  }

  function RootsOf(sources: seq<Source>): seq<TransferRoot> {
    seq(|sources|, i requires 0 <= i < |sources| => RootOf(sources[i]))
  }

  function PathsOf(sources: seq<Source>): seq<Path> {
    seq(|sources|, i requires 0 <= i < |sources| => sources[i].Path())
  }

  function ForestManifest(sources: seq<Source>): BatchManifest {
    var t := ForestTally(sources, 0);
    BatchManifest(PathsOf(sources), RootsOf(sources), t.entries, t.files, t.bytes)
  }

  ghost predicate DistinctRootNames(roots: seq<TransferRoot>) {
    forall i, j | 0 <= i < j < |roots| :: roots[i].sourceName != roots[j].sourceName
  }

  // ---------------------------------------------------------------------
  // Building a manifest
  // ---------------------------------------------------------------------

  /** The vectors and the running total that the walk appends to. */
  class Builder {
    var entries: seq<TransferEntry>
    var files: seq<BatchFile>
    var totalBytes: nat

    constructor ()
      ensures Value() == Tally([], [], 0)
    {
      entries, files, totalBytes := [], [], 0;
    }

    ghost function Value(): Tally
      reads this
    {
      Tally(entries, files, totalBytes)
    }
  }

  /** Appends the subtree `t`, found at `base + relative`, in sorted preorder. */
  method AppendManifestEntry(acc: Builder, root: nat, base: Path, relative: Path, t: Tree)
    modifies acc
    ensures acc.Value() == Plus(old(acc.Value()), TallyWalk(root, base, Walk(Canon(t), relative)))
    decreases t, 1
  {
    TallyOneVisit(root, base, Visit(relative, NodeOf(t)));
    match t {
      case DirTree(mode, found) =>
        ghost var start := acc.Value();
        acc.entries := acc.entries + [TransferEntry(root, PathText(relative), DirectoryEntry, mode, 0)];
        var children := SortChildren(found);
        SortChildrenKeeps(found);
        ghost var here := Visit(relative, DirNode(mode));
        assert acc.Value() == Plus(start, TallyVisit(root, base, here));
        hide *;
        AppendChildren(acc, root, base, relative, children, t);
        TallyDirectory(root, base, relative, t);
        PlusAssociative(start, TallyVisit(root, base, here),
                        TallyWalk(root, base, WalkEach(CanonEach(children), relative)));
      case FileTree(mode, data) =>
        acc.entries := acc.entries + [TransferEntry(root, PathText(relative), FileEntry, mode, |data|)];
        acc.files := acc.files + [BatchFile(root, base + relative, |data|)];
        acc.totalBytes := acc.totalBytes + |data|;
        assert Walk(Canon(t), relative) == [Visit(relative, NodeOf(t))];
    }
  }

  lemma TallyOneVisit(root: nat, base: Path, v: Visit)
    ensures TallyWalk(root, base, [v]) == TallyVisit(root, base, v)
  {
    assert [v][1..] == [];
    PlusNothing(TallyVisit(root, base, v));
  }

  /** A directory's tally is its own entry and then its sorted children's. */
  lemma TallyDirectory(root: nat, base: Path, relative: Path, t: Tree)
    requires t.DirTree?
    ensures TallyWalk(root, base, Walk(Canon(t), relative)) ==
            Plus(TallyVisit(root, base, Visit(relative, DirNode(t.mode))),
                 TallyWalk(root, base, WalkEach(CanonEach(SortChildren(t.children)), relative)))
  {
    SortCanonCommute(t.children);
    var first, later := [Visit(relative, DirNode(t.mode))], WalkEach(CanonEach(SortChildren(t.children)), relative);
    assert Walk(Canon(t), relative) == first + later;
    TallyAppend(root, base, first, later);
    TallyOneVisit(root, base, first[0]);
  }

  /** The loop over one directory's sorted children. */
  method AppendChildren(acc: Builder, root: nat, base: Path, relative: Path, children: seq<Child>, ghost parent: Tree)
    requires forall c | c in children :: c.tree < parent
    modifies acc
    ensures acc.Value() == Plus(old(acc.Value()), TallyWalk(root, base, WalkEach(CanonEach(children), relative)))
    decreases parent, 0
  {
    ghost var canon := CanonEach(children);
    ghost var start, vs: seq<Visit> := acc.Value(), [];
    PlusNothing(start);
    assert TallyWalk(root, base, vs) == Tally([], [], 0);
    assert vs + WalkEach(canon[0..], relative) == WalkEach(canon, relative) by {
      assert canon[0..] == canon;
    }
    hide *;
    for i := 0 to |children|
      invariant acc.Value() == Plus(start, TallyWalk(root, base, vs))
      invariant vs + WalkEach(canon[i..], relative) == WalkEach(canon, relative)
    {
      var c := children[i];
      AppendManifestEntry(acc, root, base, relative + [c.name], c.tree);
      ChildStep(start, acc.Value(), root, base, relative, children, i, vs);
      vs := vs + Walk(Canon(c.tree), relative + [c.name]);
    }
    WalkEachEnd(canon, relative);
    assert vs == WalkEach(canon, relative);
  }

  lemma ChildStep(start: Tally, after: Tally, root: nat, base: Path, relative: Path,
                  children: seq<Child>, i: nat, vs: seq<Visit>)
    requires i < |children|
    requires vs + WalkEach(CanonEach(children)[i..], relative) == WalkEach(CanonEach(children), relative)
    requires after == Plus(Plus(start, TallyWalk(root, base, vs)),
                           TallyWalk(root, base, Walk(Canon(children[i].tree), relative + [children[i].name])))
    ensures var more := Walk(Canon(children[i].tree), relative + [children[i].name]);
            after == Plus(start, TallyWalk(root, base, vs + more)) &&
            vs + more + WalkEach(CanonEach(children)[i + 1..], relative) == WalkEach(CanonEach(children), relative)
  {
    hide *;
    var more := Walk(Canon(children[i].tree), relative + [children[i].name]);
    NextChild(children, i, relative, vs);
    TallyAppend(root, base, vs, more);
    PlusAssociative(start, TallyWalk(root, base, vs), TallyWalk(root, base, more));
  }

  lemma WalkEachStep(cs: seq<Child>, i: nat, at: Path)
    requires i < |cs|
    ensures WalkEach(cs[i..], at) == Walk(cs[i].tree, at + [cs[i].name]) + WalkEach(cs[i + 1..], at)
  {
    assert cs[i..][1..] == cs[i + 1..];
  }

  lemma NextChild(children: seq<Child>, i: nat, at: Path, vs: seq<Visit>)
    requires i < |children|
    requires vs + WalkEach(CanonEach(children)[i..], at) == WalkEach(CanonEach(children), at)
    ensures vs + Walk(Canon(children[i].tree), at + [children[i].name]) + WalkEach(CanonEach(children)[i + 1..], at)
         == WalkEach(CanonEach(children), at)
  {
    WalkEachStep(CanonEach(children), i, at);
    hide *;
    Associate(vs, Walk(Canon(children[i].tree), at + [children[i].name]), WalkEach(CanonEach(children)[i + 1..], at));
  }

  lemma WalkEachEnd(cs: seq<Child>, at: Path)
    ensures WalkEach(cs[|cs|..], at) == []
  {
  }

  /** The first root name already in `seen` or repeated. */
  function RepeatedName(roots: seq<TransferRoot>, seen: set<string>): Option<Name> {
    if roots == [] then None
    else if roots[0].sourceName in seen then Some(roots[0].sourceName)
    else RepeatedName(roots[1..], seen + {roots[0].sourceName})
  }

  lemma {:induction false} RepeatedNameNone(roots: seq<TransferRoot>, seen: set<string>)
    ensures RepeatedName(roots, seen) == None <==>
            DistinctRootNames(roots) && forall i | 0 <= i < |roots| :: roots[i].sourceName !in seen
  {
    if roots != [] && roots[0].sourceName !in seen {
      var more := seen + {roots[0].sourceName};
      RepeatedNameNone(roots[1..], more);
      if RepeatedName(roots, seen) == None {
        forall j | 0 < j < |roots|
          ensures roots[j].sourceName !in more
        {
          assert roots[1..][j - 1] == roots[j];
        }
        forall i, j | 0 <= i < j < |roots|
          ensures roots[i].sourceName != roots[j].sourceName
        {
          if i > 0 {
            assert roots[1..][i - 1] == roots[i] && roots[1..][j - 1] == roots[j];
          }
        }
      }
    }
  }

  /** Inserting names into a set, failing on the first repeat. */
  method EnsureUniqueRootNames(roots: seq<TransferRoot>) returns (r: Result<(), ManifestError>)
    ensures match RepeatedName(roots, {})
            case None => r == Ok(()) && DistinctRootNames(roots)
            case Some(name) => r == Err(DuplicateRootName(name)) && !DistinctRootNames(roots)
  {
    var seen: set<string> := {};
    RepeatedNameNone(roots, {});
    assert roots[0..] == roots;
    for i := 0 to |roots|
      invariant RepeatedName(roots, {}) == RepeatedName(roots[i..], seen)
    {
      assert roots[i..][1..] == roots[i + 1..];
      if roots[i].sourceName in seen {
        return Err(DuplicateRootName(roots[i].sourceName));
      }
      seen := seen + {roots[i].sourceName};
    }
    r := Ok(());
  }

  /** Distinct sources give exactly the forest's manifest; a repeated root name is refused. */
  method BuildBatchManifest(sources: seq<Source>) returns (r: Result<BatchManifest, ManifestError>)
    ensures r.Ok? <==> DistinctRootNames(RootsOf(sources))
    ensures r.Ok? ==> r.value == ForestManifest(sources)
  {
    var acc := new Builder();
    var roots: seq<TransferRoot> := [];
    var paths: seq<Path> := [];
    hide SourceVisits, TallyWalk;
    assert sources[0..] == sources;
    for i := 0 to |sources|
      invariant roots == RootsOf(sources)[..i]
      invariant paths == PathsOf(sources)[..i]
      invariant Plus(acc.Value(), ForestTally(sources[i..], i)) == ForestTally(sources, 0)
    {
      var source := sources[i];
      assert sources[i..][1..] == sources[i + 1..];
      PlusAssociative(acc.Value(), TallyWalk(i, source.Path(), SourceVisits(source.tree)),
                      ForestTally(sources[i + 1..], i + 1));
      roots := roots + [RootOf(source)];
      paths := paths + [source.Path()];
      AppendSource(acc, i, source);
    }
    assert sources[|sources|..] == [];
    PlusNothing(acc.Value());
    var unique := EnsureUniqueRootNames(roots);
    if unique.Err? {
      return Err(unique.error);
    }
    r := Ok(BatchManifest(paths, roots, acc.entries, acc.files, acc.totalBytes));
  }

  method AppendSource(acc: Builder, root: nat, source: Source)
    modifies acc
    ensures acc.Value() == Plus(old(acc.Value()), TallyWalk(root, source.Path(), SourceVisits(source.tree)))
  {
    AppendManifestEntry(acc, root, source.Path(), [], source.tree);
  }

  // ---------------------------------------------------------------------
  // Well-formed manifests
  // ---------------------------------------------------------------------

  /** The component list an entry's text stands for. */
  ghost function EntryPath(e: TransferEntry): Path {
    TextPath(e.relativePath)
  }

  ghost function TextPath(text: string): Path {
    match Join([], text)
    case Ok(p) => p
    case Err(_) => []
  }

  ghost predicate EntryBefore(a: TransferEntry, b: TransferEntry) {
    a.rootIndex < b.rootIndex || (a.rootIndex == b.rootIndex && PathLess(EntryPath(a), EntryPath(b)))
  }

  /** Strictly increasing in (root index, component list). */
  ghost predicate Increasing(entries: seq<TransferEntry>) {
    forall i, j | 0 <= i < j < |entries| :: EntryBefore(entries[i], entries[j])
  }

  ghost predicate IsParentOf(d: TransferEntry, e: TransferEntry) {
    d.rootIndex == e.rootIndex && d.kind.DirectoryEntry? &&
    EntryPath(e) != [] && EntryPath(d) == EntryPath(e)[..|EntryPath(e)| - 1]
  }

  /** Every entry below a root comes after the entry of the directory that holds it. */
  ghost predicate ParentsFirst(entries: seq<TransferEntry>) {
    forall j | 0 <= j < |entries| && EntryPath(entries[j]) != [] ::
      exists i | 0 <= i < j :: IsParentOf(entries[i], entries[j])
  }

  ghost predicate CanonicalTexts(entries: seq<TransferEntry>) {
    forall e | e in entries :: e.relativePath == PathText(EntryPath(e))
  }

  /** File `k` lies where the `k`-th file entry says, below its root's source. */
  ghost predicate FileNamed(paths: seq<Path>, from: nat, e: TransferEntry, f: BatchFile) {
    from <= f.rootIndex < from + |paths| && f.path == paths[f.rootIndex - from] + EntryPath(e)
  }

  ghost predicate FilesNamed(paths: seq<Path>, from: nat, entries: seq<TransferEntry>, files: seq<BatchFile>) {
    |files| == |FileEntries(entries)| &&
    forall k | 0 <= k < |files| :: FileNamed(paths, from, FileEntries(entries)[k], files[k])
  }

  ghost predicate WellFormedManifest(m: BatchManifest) {
    |m.sources| == |m.roots| &&
    (forall e | e in m.entries :: e.rootIndex < |m.roots|) &&
    CanonicalTexts(m.entries) && Increasing(m.entries) && ParentsFirst(m.entries) &&
    FilesAgree(m.entries, m.files) && FilesNamed(m.sources, 0, m.entries, m.files) &&
    m.totalBytes == Sum(FileSizes(m.files))
  }

  lemma EntryOfPath(root: nat, v: Visit)
    ensures EntryPath(EntryOf(root, v)) == v.path
  {
    JoinPathText([], v.path);
    assert [] + v.path == v.path;
  }

  /** The entries made from a list of visits, and their paths. */
  ghost predicate EntriesFrom(root: nat, vs: seq<Visit>, entries: seq<TransferEntry>) {
    |entries| == |vs| &&
    forall i | 0 <= i < |vs| ::
      entries[i].rootIndex == root && entries[i].kind == KindOf(vs[i].node) &&
      entries[i].relativePath == PathText(vs[i].path) && EntryPath(entries[i]) == vs[i].path
  }

  lemma WalkEntriesFrom(root: nat, base: Path, vs: seq<Visit>)
    ensures EntriesFrom(root, vs, TallyWalk(root, base, vs).entries)
  {
    TallyWalkShape(root, base, vs);
    hide TallyWalk, TextPath, PathText;
    forall i | 0 <= i < |vs|
      ensures EntryPath(EntryOf(root, vs[i])) == vs[i].path
    {
      EntryOfPath(root, vs[i]);
    }
  }

  lemma SortedVisitsShape(t: Tree, root: nat, entries: seq<TransferEntry>)
    requires SortedTree(t) && EntriesFrom(root, Walk(t, []), entries)
    ensures CanonicalTexts(entries) && Increasing(entries) && ParentsFirst(entries)
  {
    var vs := Walk(t, []);
    hide TextPath, PathText, PathLess, SortedTree;
    WalkSorted(t, []);
    WalkRoot(t);
    hide Walk;
    forall j | 0 <= j < |entries| && EntryPath(entries[j]) != []
      ensures exists i | 0 <= i < j :: IsParentOf(entries[i], entries[j])
    {
      var i := WalkParentFirst(t, [], j);
      assert IsParentOf(entries[i], entries[j]);
    }
  }

  /** The entries of one source's walk. */
  lemma SourceEntriesShape(root: nat, base: Path, t: Tree)
    requires ValidTree(t)
    ensures var entries := TallyWalk(root, base, SourceVisits(t)).entries;
            CanonicalTexts(entries) && Increasing(entries) && ParentsFirst(entries) &&
            forall e | e in entries :: e.rootIndex == root
  {
    CanonSorted(t);
    WalkEntriesFrom(root, base, SourceVisits(t));
    SortedVisitsShape(Canon(t), root, TallyWalk(root, base, SourceVisits(t)).entries);
  }

  lemma WalkRoot(t: Tree)
    ensures Walk(t, []) != [] && Walk(t, [])[0].path == []
  {
  }

  /** Two entry lists over separate roots, the earlier roots first, can be put together. */
  lemma ConcatShape(a: seq<TransferEntry>, b: seq<TransferEntry>)
    requires CanonicalTexts(a) && Increasing(a) && ParentsFirst(a)
    requires CanonicalTexts(b) && Increasing(b) && ParentsFirst(b)
    requires forall x, y | x in a && y in b :: x.rootIndex < y.rootIndex
    ensures CanonicalTexts(a + b) && Increasing(a + b) && ParentsFirst(a + b)
  {
    hide TextPath, PathText, PathLess;
    var all := a + b;
    forall j | 0 <= j < |all| && EntryPath(all[j]) != []
      ensures exists i | 0 <= i < j :: IsParentOf(all[i], all[j])
    {
      if j < |a| {
        var i :| 0 <= i < j && IsParentOf(a[i], a[j]);
        assert IsParentOf(all[i], all[j]);
      } else {
        var i :| 0 <= i < j - |a| && IsParentOf(b[i], b[j - |a|]);
        assert IsParentOf(all[|a| + i], all[j]);
      }
    }
    forall i, j | 0 <= i < j < |all|
      ensures EntryBefore(all[i], all[j])
    {
      if i < |a| <= j {
        assert all[i] in a && all[j] in b;
      } else if j < |a| {
        assert EntryBefore(a[i], a[j]);
      } else {
        assert EntryBefore(b[i - |a|], b[j - |a|]);
      }
    }
  }

  lemma {:induction false} ForestShape(sources: seq<Source>, from: nat)
    requires ValidSources(sources)
    ensures var t := ForestTally(sources, from);
            CanonicalTexts(t.entries) && Increasing(t.entries) && ParentsFirst(t.entries) &&
            (forall e | e in t.entries :: from <= e.rootIndex < from + |sources|) &&
            FilesAgree(t.entries, t.files) &&
            FileSizes(t.files) == Lengths(ForestContents(sources)) && t.bytes == Sum(FileSizes(t.files))
  {
    if sources != [] {
      var first, vs := sources[0], SourceVisits(sources[0].tree);
      var a, b := TallyWalk(from, first.Path(), vs), ForestTally(sources[1..], from + 1);
      SourceEntriesShape(from, first.Path(), first.tree);
      TallyWalkShape(from, first.Path(), vs);
      ForestShape(sources[1..], from + 1);
      ConcatShape(a.entries, b.entries);
      FilesAgreeAppend(a.entries, b.entries, a.files, b.files);
      FileSizesAppend(a.files, b.files);
      LengthsAppend(Contents(vs), ForestContents(sources[1..]));
      SumAppend(FileSizes(a.files), FileSizes(b.files));
    }
  }

  // ---------------------------------------------------------------------
  // Which files a manifest names
  // ---------------------------------------------------------------------

  lemma {:induction false} WalkFilesNamed(paths: seq<Path>, from: nat, root: nat, vs: seq<Visit>)
    requires from <= root < from + |paths|
    ensures var t := TallyWalk(root, paths[root - from], vs);
            FilesNamed(paths, from, t.entries, t.files)
    decreases |vs|
  {
    hide TextPath, PathText;
    if vs != [] {
      var v, base := vs[0], paths[root - from];
      WalkFilesNamed(paths, from, root, vs[1..]);
      var one, later := TallyVisit(root, base, v), TallyWalk(root, base, vs[1..]);
      EntryOfPath(root, v);
      assert one.entries[1..] == [];
      FileEntriesAppend(one.entries, later.entries);
    }
  }

  lemma FilesNamedAppend(paths: seq<Path>, from: nat, a: seq<TransferEntry>, b: seq<TransferEntry>,
                         fa: seq<BatchFile>, fb: seq<BatchFile>)
    requires FilesNamed(paths, from, a, fa) && FilesNamed(paths, from, b, fb)
    ensures FilesNamed(paths, from, a + b, fa + fb)
  {
    hide FileNamed;
    FileEntriesAppend(a, b);
  }

  lemma FilesNamedWidens(paths: seq<Path>, more: seq<Path>, before: nat, from: nat, entries: seq<TransferEntry>, files: seq<BatchFile>)
    requires before <= from && FilesNamed(paths, from, entries, files)
    requires |paths| + (from - before) <= |more| && forall i | 0 <= i < |paths| :: more[from - before + i] == paths[i]
    ensures FilesNamed(more, before, entries, files)
  {
    forall k | 0 <= k < |files|
      ensures FileNamed(more, before, FileEntries(entries)[k], files[k])
    {
      assert FileNamed(paths, from, FileEntries(entries)[k], files[k]);
    }
  }

  lemma {:induction false} ForestFilesNamed(sources: seq<Source>, from: nat)
    ensures FilesNamed(PathsOf(sources), from, ForestTally(sources, from).entries, ForestTally(sources, from).files)
    decreases |sources|
  {
    hide TallyWalk, SourceVisits, FilesNamed;
    if sources == [] {
      NoFilesNamed(from);
    } else {
      var vs, paths := SourceVisits(sources[0].tree), PathsOf(sources);
      ForestFilesNamed(sources[1..], from + 1);
      WalkFilesNamed(paths, from, from, vs);
      var a, b := TallyWalk(from, paths[0], vs), ForestTally(sources[1..], from + 1);
      FilesNamedWidens(PathsOf(sources[1..]), paths, from, from + 1, b.entries, b.files);
      FilesNamedAppend(paths, from, a.entries, b.entries, a.files, b.files);
    }
  }

  lemma NoFilesNamed(from: nat)
    ensures FilesNamed([], from, [], [])
  {
  }

  /** Every manifest built from a forest is well formed. */
  lemma ForestManifestWellFormed(sources: seq<Source>)
    requires ValidSources(sources)
    ensures WellFormedManifest(ForestManifest(sources))
  {
    hide ForestTally, FilesNamed, CanonicalTexts, Increasing, ParentsFirst, FilesAgree, FileSizes, Sum, ForestContents, Lengths;
    hide ValidSources;
    ForestShape(sources, 0);
    ForestFilesNamed(sources, 0);
  }

  /** It describes its sources' roots: their paths, names, kinds and modes. */
  lemma ForestRootsExact(sources: seq<Source>)
    ensures var m := ForestManifest(sources);
            |m.sources| == |m.roots| == |sources| &&
            forall i | 0 <= i < |sources| ::
              m.sources[i] == sources[i].parent + [sources[i].name] && m.roots[i].sourceName == sources[i].name &&
              m.roots[i].mode == sources[i].tree.mode && (m.roots[i].kind.FileEntry? <==> sources[i].tree.FileTree?)
  {
    hide ForestTally;
  }
}
