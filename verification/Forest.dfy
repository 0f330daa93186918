/**
 A forest's manifest, resolved against root paths and filled with the forest's
 own contents, lays exactly the forest over the file system.
 */
module Forest {
  import opened Base
  import opened Paths
  import opened Trees
  import opened FileSystem
  import opened Manifest
  import opened Overlay
  import opened Receiver
  import opened Slices
  import opened Roots
  import opened Unpack

  function DataOf(n: Node): seq<Byte> {
    if n.FileNode? then n.data else []
  }

  function VisitItem(base: Path, v: Visit): Item {
    Item(base + v.path, KindOf(v.node), v.node.mode, DataOf(v.node))
  }

  function VisitItems(base: Path, vs: seq<Visit>): (items: seq<Item>)
    ensures |items| == |vs|
    ensures forall i | 0 <= i < |vs| :: items[i] == VisitItem(base, vs[i])
  {
    if vs == [] then [] else [VisitItem(base, vs[0])] + VisitItems(base, vs[1..])
  }

  /** The forest's nodes with their output paths, source `k` going to `rootPaths[from + k]`. */
  function ForestItems(rootPaths: seq<Path>, from: nat, sources: seq<Source>): seq<Item>
    requires from + |sources| <= |rootPaths|
    decreases |sources|
  {
    if sources == [] then []
    else
      VisitItems(rootPaths[from], SourceVisits(sources[0].tree)) + ForestItems(rootPaths, from + 1, sources[1..])
  }

  // ---------------------------------------------------------------------
  // The manifest carries the forest
  // ---------------------------------------------------------------------

  lemma VisitResolves(rootPaths: seq<Path>, k: nat, v: Visit)
    requires k < |rootPaths|
    ensures ResolveEntry(rootPaths, EntryOf(k, v)) == Ok(rootPaths[k] + v.path)
  {
    JoinPathText(rootPaths[k], v.path);
  }

  lemma {:induction false} WalkItems(rootPaths: seq<Path>, k: nat, base: Path, vs: seq<Visit>,
                                     restEntries: seq<TransferEntry>, restContents: seq<seq<Byte>>)
    requires k < |rootPaths|
    requires Resolves(rootPaths, restEntries) && |restContents| == |FileEntrySizes(restEntries)|
    ensures var entries, contents := TallyWalk(k, base, vs).entries + restEntries, Contents(vs) + restContents;
            Resolves(rootPaths, entries) && |contents| == |FileEntrySizes(entries)| &&
            ItemsOf(rootPaths, entries, contents) ==
            VisitItems(rootPaths[k], vs) + ItemsOf(rootPaths, restEntries, restContents)
    decreases |vs|
  {
    if vs == [] {
      assert TallyWalk(k, base, vs).entries + restEntries == restEntries;
      assert Contents(vs) + restContents == restContents;
      assert VisitItems(rootPaths[k], vs) + ItemsOf(rootPaths, restEntries, restContents)
          == ItemsOf(rootPaths, restEntries, restContents);
    } else {
      WalkItems(rootPaths, k, base, vs[1..], restEntries, restContents);
      WalkUnfolds(k, base, vs, restEntries, restContents);
      OneMoreEntry(rootPaths, k, vs[0], TallyWalk(k, base, vs[1..]).entries + restEntries,
                   Contents(vs[1..]) + restContents);
      hide TallyWalk, Contents, ItemsOf, FileEntrySizes, Resolves;
      ConcatAssociates(VisitItem(rootPaths[k], vs[0]), VisitItems(rootPaths[k], vs[1..]),
                       ItemsOf(rootPaths, restEntries, restContents));
    }
  }

  lemma ConcatAssociates<T>(head: T, mid: seq<T>, tail: seq<T>)
    ensures [head] + (mid + tail) == [head] + mid + tail
  {
  }

  lemma WalkUnfolds(k: nat, base: Path, vs: seq<Visit>, restEntries: seq<TransferEntry>, restContents: seq<seq<Byte>>)
    requires vs != []
    ensures TallyWalk(k, base, vs).entries + restEntries ==
            [EntryOf(k, vs[0])] + (TallyWalk(k, base, vs[1..]).entries + restEntries)
    ensures Contents(vs) + restContents ==
            (if vs[0].node.FileNode? then [vs[0].node.data] else []) + (Contents(vs[1..]) + restContents)
  {
    hide PathText;
  }

  lemma OneMoreEntry(rootPaths: seq<Path>, k: nat, v: Visit, entries: seq<TransferEntry>, contents: seq<seq<Byte>>)
    requires k < |rootPaths|
    requires Resolves(rootPaths, entries) && |contents| == |FileEntrySizes(entries)|
    ensures var entries', contents' := [EntryOf(k, v)] + entries, (if v.node.FileNode? then [v.node.data] else []) + contents;
            Resolves(rootPaths, entries') && |contents'| == |FileEntrySizes(entries')| &&
            ItemsOf(rootPaths, entries', contents') == [VisitItem(rootPaths[k], v)] + ItemsOf(rootPaths, entries, contents)
  {
    var entries' := [EntryOf(k, v)] + entries;
    VisitResolves(rootPaths, k, v);
    hide ResolveEntry, PathText;
    assert entries'[1..] == entries;
    assert Resolves(rootPaths, entries') by {
      forall i | 0 <= i < |entries'|
        ensures ResolveEntry(rootPaths, entries'[i]).Ok?
      {
        if i > 0 {
          assert entries'[i] == entries[i - 1];
        }
      }
    }
    if v.node.FileNode? {
      assert ([v.node.data] + contents)[1..] == contents;
    } else {
      assert [] + contents == contents;
    }
  }

  /** A forest's manifest entries with the forest's contents are the forest's items. */
  lemma {:induction false} ForestManifestItems(rootPaths: seq<Path>, from: nat, sources: seq<Source>)
    requires from + |sources| <= |rootPaths|
    ensures var entries := ForestTally(sources, from).entries;
            Resolves(rootPaths, entries) && |ForestContents(sources)| == |FileEntrySizes(entries)| &&
            ItemsOf(rootPaths, entries, ForestContents(sources)) == ForestItems(rootPaths, from, sources)
    decreases |sources|
  {
    if sources != [] {
      hide SourceVisits, TallyWalk, Contents, VisitItems, ItemsOf;
      ForestManifestItems(rootPaths, from + 1, sources[1..]);
      WalkItems(rootPaths, from, sources[0].Path(), SourceVisits(sources[0].tree),
                ForestTally(sources[1..], from + 1).entries, ForestContents(sources[1..]));
    } else {
      NoItems(rootPaths);
    }
  }

  lemma NoItems(rootPaths: seq<Path>)
    ensures Resolves(rootPaths, []) && ItemsOf(rootPaths, [], []) == []
  {
  }

  lemma {:induction false} ForestSizes(sources: seq<Source>, from: nat)
    ensures FileEntrySizes(ForestTally(sources, from).entries) == Lengths(ForestContents(sources))
    decreases |sources|
  {
    if sources != [] {
      var vs := SourceVisits(sources[0].tree);
      var a, b := TallyWalk(from, sources[0].Path(), vs).entries, ForestTally(sources[1..], from + 1).entries;
      ForestSizes(sources[1..], from + 1);
      WalkSizes(from, sources[0].Path(), vs);
      hide SourceVisits, TallyWalk, Contents;
      SizesAppend(a, b);
      LengthsAppend(Contents(vs), ForestContents(sources[1..]));
    }
  }

  lemma {:induction false} SizesAppend(a: seq<TransferEntry>, b: seq<TransferEntry>)
    ensures FileEntrySizes(a + b) == FileEntrySizes(a) + FileEntrySizes(b)
  {
    if a == [] {
      assert a + b == b;
    } else {
      assert (a + b)[1..] == a[1..] + b;
      SizesAppend(a[1..], b);
      var head := if a[0].kind.FileEntry? then [a[0].size] else [];
      assert head + (FileEntrySizes(a[1..]) + FileEntrySizes(b)) == head + FileEntrySizes(a[1..]) + FileEntrySizes(b);
    }
  }

  lemma {:induction false} WalkSizes(k: nat, base: Path, vs: seq<Visit>)
    ensures FileEntrySizes(TallyWalk(k, base, vs).entries) == Lengths(Contents(vs))
    decreases |vs|
  {
    hide PathText;
    if vs != [] {
      WalkSizes(k, base, vs[1..]);
      var entries := TallyWalk(k, base, vs).entries;
      assert entries[0] == EntryOf(k, vs[0]) && entries[1..] == TallyWalk(k, base, vs[1..]).entries;
      if vs[0].node.FileNode? {
        assert Contents(vs)[1..] == Contents(vs[1..]);
      } else {
        assert Contents(vs) == Contents(vs[1..]);
      }
    }
  }

  // ---------------------------------------------------------------------
  // Which items a forest has
  // ---------------------------------------------------------------------

  lemma {:induction false} ForestItemSound(rootPaths: seq<Path>, from: nat, sources: seq<Source>, it: Item)
    returns (i: nat, rel: Path)
    requires from + |sources| <= |rootPaths| && ValidSources(sources) && it in ForestItems(rootPaths, from, sources)
    ensures i < |sources| && Lookup(sources[i].tree, rel).Some?
    ensures it == VisitItem(rootPaths[from + i], Visit(rel, Lookup(sources[i].tree, rel).value))
    decreases |sources|
  {
    var here := VisitItems(rootPaths[from], SourceVisits(sources[0].tree));
    if it in here {
      var k :| 0 <= k < |here| && here[k] == it;
      SourceVisitSound(sources[0].tree, SourceVisits(sources[0].tree)[k]);
      i, rel := 0, SourceVisits(sources[0].tree)[k].path;
    } else {
      hide VisitItems, VisitItem, Lookup, ValidTree;
      i, rel := ForestItemSound(rootPaths, from + 1, sources[1..], it);
      i := i + 1;
    }
  }

  lemma {:induction false} ForestItemComplete(rootPaths: seq<Path>, from: nat, sources: seq<Source>, i: nat, rel: Path)
    requires from + |sources| <= |rootPaths| && ValidSources(sources)
    requires i < |sources| && Lookup(sources[i].tree, rel).Some?
    ensures VisitItem(rootPaths[from + i], Visit(rel, Lookup(sources[i].tree, rel).value))
            in ForestItems(rootPaths, from, sources)
    decreases |sources|
  {
    if i == 0 {
      SourceVisitComplete(rootPaths[from], sources[0].tree, rel);
    } else {
      hide VisitItems, VisitItem, Lookup, ValidTree;
      ForestItemComplete(rootPaths, from + 1, sources[1..], i - 1, rel);
    }
  }

  lemma SourceVisitComplete(base: Path, t: Tree, rel: Path)
    requires ValidTree(t) && Lookup(t, rel).Some?
    ensures VisitItem(base, Visit(rel, Lookup(t, rel).value)) in VisitItems(base, SourceVisits(t))
  {
    CanonLookup(t, rel);
    WalkComplete(Canon(t), [], rel);
    assert [] + rel == rel;
    var v := Visit(rel, Lookup(t, rel).value);
    var k :| 0 <= k < |SourceVisits(t)| && SourceVisits(t)[k] == v;
    assert VisitItems(base, SourceVisits(t))[k] == VisitItem(base, v);
  }

  // ---------------------------------------------------------------------
  // Laying a forest over a file system
  // ---------------------------------------------------------------------

  /** Nothing above a root is a file, and no node of the forest meets a node of the other kind. */
  ghost predicate ClearWay(fs: FS, rootPaths: seq<Path>, sources: seq<Source>)
    requires |rootPaths| == |sources|
  {
    (forall i | 0 <= i < |sources| :: !FileAbove(fs, rootPaths[i])) &&
    forall i, rel | 0 <= i < |sources| && Lookup(sources[i].tree, rel).Some? ::
      !Clashes(Get(fs, rootPaths[i] + rel), KindOf(Lookup(sources[i].tree, rel).value))
  }

  lemma WayIsClearBelow(fs: FS, rootPaths: seq<Path>, sources: seq<Source>, i: nat, rel: Path)
    requires |rootPaths| == |sources| && ClearWay(fs, rootPaths, sources)
    requires i < |sources| && Lookup(sources[i].tree, rel).Some?
    ensures !FileAbove(fs, rootPaths[i] + rel)
  {
    var base := rootPaths[i];
    forall k | 0 <= k < |base + rel|
      ensures !IsFile(fs, (base + rel)[..k])
    {
      if k < |base| {
        assert (base + rel)[..k] == base[..k];
      } else {
        var n := k - |base|;
        assert (base + rel)[..k] == base + rel[..n];
        LookupPrefix(sources[i].tree, rel, n);
        assert !Clashes(Get(fs, base + rel[..n]), DirectoryEntry);
      }
    }
  }

  lemma ClearWayIsCompatible(fs: FS, rootPaths: seq<Path>, sources: seq<Source>)
    requires |rootPaths| == |sources| && ValidSources(sources)
    ensures Compatible(fs, ForestItems(rootPaths, 0, sources)) <==> ClearWay(fs, rootPaths, sources)
  {
    var items := ForestItems(rootPaths, 0, sources);
    hide ForestItems, ValidTree, FileAbove, Clashes, Lookup;
    if ClearWay(fs, rootPaths, sources) {
      forall k | 0 <= k < |items|
        ensures !FileAbove(fs, items[k].path) && !Clashes(Get(fs, items[k].path), items[k].kind)
      {
        ClearItemFits(fs, rootPaths, sources, items[k]);
      }
    }
    if Compatible(fs, items) {
      CompatibleIsClear(fs, rootPaths, sources);
    }
  }

  lemma ClearItemFits(fs: FS, rootPaths: seq<Path>, sources: seq<Source>, it: Item)
    requires |rootPaths| == |sources| && ValidSources(sources) && ClearWay(fs, rootPaths, sources)
    requires it in ForestItems(rootPaths, 0, sources)
    ensures !FileAbove(fs, it.path) && !Clashes(Get(fs, it.path), it.kind)
  {
    hide ForestItems, ValidTree, FileAbove, Clashes, Lookup;
    var i, rel := ForestItemSound(rootPaths, 0, sources, it);
    WayIsClearBelow(fs, rootPaths, sources, i, rel);
  }

  lemma CompatibleIsClear(fs: FS, rootPaths: seq<Path>, sources: seq<Source>)
    requires |rootPaths| == |sources| && ValidSources(sources)
    requires Compatible(fs, ForestItems(rootPaths, 0, sources))
    ensures ClearWay(fs, rootPaths, sources)
  {
    hide ForestItems, ValidTree, FileAbove, Clashes;
    forall i, rel | 0 <= i < |sources| && Lookup(sources[i].tree, rel).Some?
      ensures !FileAbove(fs, rootPaths[i] + rel)
      ensures !Clashes(Get(fs, rootPaths[i] + rel), KindOf(Lookup(sources[i].tree, rel).value))
    {
      ItemFits(fs, rootPaths, sources, i, rel);
    }
    forall i | 0 <= i < |sources|
      ensures !FileAbove(fs, rootPaths[i])
    {
      assert Lookup(sources[i].tree, []).Some?;
      assert rootPaths[i] + [] == rootPaths[i];
    }
  }

  lemma ItemFits(fs: FS, rootPaths: seq<Path>, sources: seq<Source>, i: nat, rel: Path)
    requires |rootPaths| == |sources| && ValidSources(sources) && i < |sources|
    requires Compatible(fs, ForestItems(rootPaths, 0, sources)) && Lookup(sources[i].tree, rel).Some?
    ensures !FileAbove(fs, rootPaths[i] + rel)
    ensures !Clashes(Get(fs, rootPaths[i] + rel), KindOf(Lookup(sources[i].tree, rel).value))
  {
    var items := ForestItems(rootPaths, 0, sources);
    hide ForestItems, ValidTree, FileAbove, Clashes, Lookup;
    ForestItemComplete(rootPaths, 0, sources, i, rel);
    var it := VisitItem(rootPaths[i], Visit(rel, Lookup(sources[i].tree, rel).value));
    var k :| 0 <= k < |items| && items[k] == it;
    assert !FileAbove(fs, items[k].path);
  }

  /** What `base + rel` holds once `t` has been laid over it. */
  function LaidNode(fs: FS, side: Side, umask: Mode, base: Path, t: Tree, rel: Path): Option<Node> {
    match Lookup(t, rel)
    case None => Get(fs, base + rel)
    case Some(n) => Some(NodeAfter(side, umask, Get(fs, base + rel), VisitItem(base, Visit(rel, n))))
  }

  /**
   The forest lies over `fs`: below each root its nodes replace what was there and everything else is kept;
   outside the roots only missing directories on the way to them are new.
   */
  ghost predicate LaidOver(fs: FS, after: FS, side: Side, umask: Mode, rootPaths: seq<Path>, sources: seq<Source>)
    requires |rootPaths| == |sources|
  {
    (forall i, rel: Path | 0 <= i < |sources| ::
       Get(after, rootPaths[i] + rel) == LaidNode(fs, side, umask, rootPaths[i], sources[i].tree, rel)) &&
    (forall q: Path | (forall i | 0 <= i < |rootPaths| :: !(rootPaths[i] <= q)) ::
       Get(after, q) == if q !in fs && (exists i | 0 <= i < |rootPaths| :: q < rootPaths[i])
                        then Some(DirNode(DirDefault(umask))) else Get(fs, q))
  }

  /** An item at or below `base + rel` means the tree has `rel`. */
  lemma ItemBelowIsInTree(rootPaths: seq<Path>, sources: seq<Source>, i: nat, rel: Path, it: Item)
    requires |rootPaths| == |sources| && ValidSources(sources) && Separate(rootPaths) && i < |sources|
    requires it in ForestItems(rootPaths, 0, sources) && rootPaths[i] + rel <= it.path
    ensures Lookup(sources[i].tree, rel).Some?
  {
    var j, rel' := ForestItemSound(rootPaths, 0, sources, it);
    hide ForestItems, ValidTree;
    assert rootPaths[i] <= rootPaths[i] + rel <= it.path && rootPaths[j] <= it.path;
    PrefixesCompare(rootPaths[i], rootPaths[j], it.path);
    assert i == j;
    assert (rootPaths[i] + rel)[|rootPaths[i]|..] == rel;
    assert (rootPaths[i] + rel')[|rootPaths[i]|..] == rel';
    if rootPaths[i] + rel != it.path {
      SameBase(rootPaths[i], rel, rel');
      LookupPrefix(sources[i].tree, rel', |rel|);
      assert rel'[..|rel|] == rel;
    }
  }

  lemma ForestVisits(rootPaths: seq<Path>, sources: seq<Source>, i: nat, rel: Path)
    requires |rootPaths| == |sources| && ValidSources(sources) && Separate(rootPaths) && i < |sources|
    ensures var items := ForestItems(rootPaths, 0, sources);
            (Visits(items, rootPaths[i] + rel) <==> Lookup(sources[i].tree, rel).Some?) &&
            (VisitsBelow(items, rootPaths[i] + rel) ==> Lookup(sources[i].tree, rel).Some?)
  {
    var items, q := ForestItems(rootPaths, 0, sources), rootPaths[i] + rel;
    hide ForestItems, ValidTree, Lookup;
    if Visits(items, q) {
      var k :| 0 <= k < |items| && items[k].path == q;
      ItemBelowIsInTree(rootPaths, sources, i, rel, items[k]);
    }
    if VisitsBelow(items, q) {
      var k :| 0 <= k < |items| && q < items[k].path;
      ItemBelowIsInTree(rootPaths, sources, i, rel, items[k]);
    }
    if Lookup(sources[i].tree, rel).Some? {
      ForestItemComplete(rootPaths, 0, sources, i, rel);
      var k :| 0 <= k < |items| && items[k] == VisitItem(rootPaths[i], Visit(rel, Lookup(sources[i].tree, rel).value));
      assert items[k].path == q;
    }
  }

  lemma NothingVisitedOutside(rootPaths: seq<Path>, sources: seq<Source>, q: Path)
    requires |rootPaths| == |sources| && ValidSources(sources)
    requires forall i | 0 <= i < |rootPaths| :: !(rootPaths[i] <= q)
    ensures var items := ForestItems(rootPaths, 0, sources);
            !Visits(items, q) &&
            (VisitsBelow(items, q) <==> exists i | 0 <= i < |rootPaths| :: q < rootPaths[i])
  {
    var items := ForestItems(rootPaths, 0, sources);
    hide ForestItems, ValidTree, Lookup;
    forall k | 0 <= k < |items|
      ensures items[k].path != q
      ensures q < items[k].path ==> exists i | 0 <= i < |rootPaths| :: q < rootPaths[i]
    {
      var i := ItemRoot(rootPaths, sources, items[k]);
      if q < items[k].path {
        PrefixesCompare(q, rootPaths[i], items[k].path);
      }
    }
    if i :| 0 <= i < |rootPaths| && q < rootPaths[i] {
      RootIsItem(rootPaths, sources, i);
    }
  }

  lemma ItemRoot(rootPaths: seq<Path>, sources: seq<Source>, it: Item) returns (i: nat)
    requires |rootPaths| == |sources| && ValidSources(sources) && it in ForestItems(rootPaths, 0, sources)
    ensures i < |rootPaths| && rootPaths[i] <= it.path
  {
    var rel;
    i, rel := ForestItemSound(rootPaths, 0, sources, it);
  }

  lemma RootIsItem(rootPaths: seq<Path>, sources: seq<Source>, i: nat)
    requires |rootPaths| == |sources| && ValidSources(sources) && i < |sources|
    ensures exists k | 0 <= k < |ForestItems(rootPaths, 0, sources)| ::
              ForestItems(rootPaths, 0, sources)[k].path == rootPaths[i]
  {
    var items := ForestItems(rootPaths, 0, sources);
    hide ForestItems, ValidTree;
    assert Lookup(sources[i].tree, []).Some?;
    ForestItemComplete(rootPaths, 0, sources, i, []);
    var k :| 0 <= k < |items| && items[k] == VisitItem(rootPaths[i], Visit([], Lookup(sources[i].tree, []).value));
    assert items[k].path == rootPaths[i] + [] == rootPaths[i];
  }

  /** The overlay of a forest's items is the forest laid over the file system. */
  lemma OverlayIsLaidOver(fs: FS, after: FS, side: Side, umask: Mode, rootPaths: seq<Path>, sources: seq<Source>)
    requires |rootPaths| == |sources| && ValidSources(sources) && Separate(rootPaths)
    requires WellOrdered(ForestItems(rootPaths, 0, sources))
    requires forall q :: Get(after, q) == OverlayAt(fs, side, umask, ForestItems(rootPaths, 0, sources), q)
    ensures LaidOver(fs, after, side, umask, rootPaths, sources)
  {
    hide ForestItems, ValidTree, OverlayAt, LaidNode, WellOrdered;
    forall i, rel: Path | 0 <= i < |sources|
      ensures Get(after, rootPaths[i] + rel) == LaidNode(fs, side, umask, rootPaths[i], sources[i].tree, rel)
    {
      OverlayBelowRoot(fs, side, umask, rootPaths, sources, i, rel);
    }
    forall q: Path | forall i | 0 <= i < |rootPaths| :: !(rootPaths[i] <= q)
      ensures Get(after, q) == if q !in fs && (exists i | 0 <= i < |rootPaths| :: q < rootPaths[i])
                               then Some(DirNode(DirDefault(umask))) else Get(fs, q)
    {
      OverlayOutside(fs, side, umask, rootPaths, sources, q);
    }
  }

  lemma OverlayBelowRoot(fs: FS, side: Side, umask: Mode, rootPaths: seq<Path>, sources: seq<Source>, i: nat, rel: Path)
    requires |rootPaths| == |sources| && ValidSources(sources) && Separate(rootPaths) && i < |sources|
    requires WellOrdered(ForestItems(rootPaths, 0, sources))
    ensures OverlayAt(fs, side, umask, ForestItems(rootPaths, 0, sources), rootPaths[i] + rel) ==
            LaidNode(fs, side, umask, rootPaths[i], sources[i].tree, rel)
  {
    var items, q := ForestItems(rootPaths, 0, sources), rootPaths[i] + rel;
    hide ForestItems, ValidTree, NodeAfter, Lookup, WellOrdered;
    ForestVisits(rootPaths, sources, i, rel);
    if Lookup(sources[i].tree, rel).Some? {
      ForestItemComplete(rootPaths, 0, sources, i, rel);
      hide OverlayAt, Visits, VisitsBelow;
      OverlayAtItem(fs, side, umask, items, VisitItem(rootPaths[i], Visit(rel, Lookup(sources[i].tree, rel).value)));
    }
  }

  lemma OverlayOutside(fs: FS, side: Side, umask: Mode, rootPaths: seq<Path>, sources: seq<Source>, q: Path)
    requires |rootPaths| == |sources| && ValidSources(sources)
    requires forall i | 0 <= i < |rootPaths| :: !(rootPaths[i] <= q)
    ensures OverlayAt(fs, side, umask, ForestItems(rootPaths, 0, sources), q) ==
            if q !in fs && (exists i | 0 <= i < |rootPaths| :: q < rootPaths[i])
            then Some(DirNode(DirDefault(umask))) else Get(fs, q)
  {
    hide ForestItems, ValidTree;
    NothingVisitedOutside(rootPaths, sources, q);
  }

  // ---------------------------------------------------------------------
  // Onto nothing: an exact copy
  // ---------------------------------------------------------------------

  /** Every node of the tree carries a mode other than zero. */
  ghost predicate ModesSet(t: Tree) {
    forall rel: Path :: Lookup(t, rel).Some? ==> Lookup(t, rel).value.mode != 0
  }

  /** Where nothing was, laying a tree leaves exactly that tree: paths, kinds, modes and contents. */
  lemma LaidOnNothing(fs: FS, after: FS, side: Side, umask: Mode, rootPaths: seq<Path>, sources: seq<Source>, i: nat)
    requires |rootPaths| == |sources| && i < |sources|
    requires WellFormed(fs) && rootPaths[i] !in fs && ModesSet(sources[i].tree)
    requires LaidOver(fs, after, side, umask, rootPaths, sources)
    ensures Holds(after, rootPaths[i], sources[i].tree)
  {
    var t := sources[i].tree;
    hide NodeAfter, VisitItem, WellFormed;
    forall rel: Path
      ensures Get(after, rootPaths[i] + rel) == Lookup(t, rel)
    {
      assert Get(after, rootPaths[i] + rel) == LaidNode(fs, side, umask, rootPaths[i], t, rel);
      NothingBelow(fs, rootPaths[i], rel);
      if Lookup(t, rel).Some? {
        SetModeIsKept(side, umask, rootPaths[i], rel, Lookup(t, rel).value);
      }
    }
  }

  lemma SetModeIsKept(side: Side, umask: Mode, base: Path, rel: Path, n: Node)
    requires n.mode != 0
    ensures NodeAfter(side, umask, None, VisitItem(base, Visit(rel, n))) == n
  {
  }

  lemma NothingBelow(fs: FS, p: Path, rel: Path)
    requires WellFormed(fs) && p !in fs
    ensures p + rel !in fs
  {
    if rel == [] {
      assert p + rel == p;
    } else if p + rel in fs {
      PrefixesAreDirs(fs, p + rel, p);
    }
  }
}
