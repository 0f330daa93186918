/** fs.list: a recursive listing that prunes hidden names and depth as it goes. */
module Listing {
  import opened Base
  import opened Paths
  import opened Trees
  import opened Manifest

  datatype ListEntry = ListEntry(path: string, kind: EntryKind, size: nat, sha256: Option<string>)
  datatype Options = Options(recursive: bool, maxDepth: Option<nat>, includeHidden: bool, hashed: bool)

  type Hash = seq<Byte> -> string

  predicate Hidden(name: Name) {
    name[0] == '.'
  }

  function Digest(h: Hash, hashed: bool, n: Node): Option<string> {
    if hashed && n.FileNode? then Some(h(n.data)) else None
  }

  /** build_fs_entry; a directory's own length is not modelled. */
  function EntryAt(h: Hash, hashed: bool, v: Visit): ListEntry {
    ListEntry(PathText(v.path), KindOf(v.node), if v.node.FileNode? then |v.node.data| else 0, Digest(h, hashed, v.node))
  }

  function EntriesOf(h: Hash, hashed: bool, vs: seq<Visit>): (es: seq<ListEntry>)
    ensures |es| == |vs|
    ensures forall i | 0 <= i < |vs| :: es[i] == EntryAt(h, hashed, vs[i])
  {
    if vs == [] then [] else [EntryAt(h, hashed, vs[0])] + EntriesOf(h, hashed, vs[1..])
  }

  // ---------------------------------------------------------------------
  // The reference: filter the whole preorder
  // ---------------------------------------------------------------------

  ghost predicate HiddenBelow(root: nat, path: Path) {
    exists i | root <= i < |path| :: Hidden(path[i])
  }

  /** How deep below the listed directory a listing shows anything. */
  predicate WithinDepth(o: Options, depth: int) {
    if !o.recursive then depth <= 1
    else match o.maxDepth case None => true case Some(limit) => depth <= if limit < 1 then 1 else limit
  }

  /** Whether a listing of the directory at depth `root` shows a path below it. */
  ghost predicate Shown(o: Options, root: nat, path: Path) {
    (o.includeHidden || !HiddenBelow(root, path)) && WithinDepth(o, |path| - root)
  }

  ghost function Filtered(o: Options, root: nat, vs: seq<Visit>): seq<Visit> {
    if vs == [] then [] else (if Shown(o, root, vs[0].path) then [vs[0]] else []) + Filtered(o, root, vs[1..])
  }

  lemma {:induction false} FilteredAppend(o: Options, root: nat, a: seq<Visit>, b: seq<Visit>)
    ensures Filtered(o, root, a + b) == Filtered(o, root, a) + Filtered(o, root, b)
  {
    if a == [] {
      assert a + b == b;
    } else {
      assert (a + b)[1..] == a[1..] + b;
      FilteredAppend(o, root, a[1..], b);
      var head := if Shown(o, root, a[0].path) then [a[0]] else [];
      assert head + (Filtered(o, root, a[1..]) + Filtered(o, root, b))
          == head + Filtered(o, root, a[1..]) + Filtered(o, root, b);
    }
  }

  lemma {:induction false} FilteredNothing(o: Options, root: nat, vs: seq<Visit>)
    requires forall v | v in vs :: !Shown(o, root, v.path)
    ensures Filtered(o, root, vs) == []
  {
    if vs != [] {
      FilteredNothing(o, root, vs[1..]);
    }
  }

  lemma {:induction false} FilteredEverything(o: Options, root: nat, vs: seq<Visit>)
    requires forall v | v in vs :: Shown(o, root, v.path)
    ensures Filtered(o, root, vs) == vs
  {
    if vs != [] {
      FilteredEverything(o, root, vs[1..]);
    }
  }

  lemma {:induction false} FilteredMember(o: Options, root: nat, vs: seq<Visit>, v: Visit)
    ensures v in Filtered(o, root, vs) <==> v in vs && Shown(o, root, v.path)
  {
    if vs != [] {
      FilteredMember(o, root, vs[1..], v);
    }
  }

  /** The full sorted preorder below a directory. */
  function BelowRoot(t: Tree, at: Path): seq<Visit>
    requires t.DirTree?
  {
    WalkEach(CanonEach(SortChildren(t.children)), at)
  }

  // ---------------------------------------------------------------------
  // What pruning skips
  // ---------------------------------------------------------------------

  lemma {:induction false} WalkBelow(t: Tree, at: Path, v: Visit)
    requires v in Walk(t, at)
    ensures at <= v.path
    decreases t, 1
  {
    if v != Visit(at, NodeOf(t)) {
      WalkEachBelow(t.children, at, v);
    }
  }

  lemma {:induction false} WalkEachBelow(cs: seq<Child>, at: Path, v: Visit)
    requires v in WalkEach(cs, at)
    ensures at < v.path
    decreases cs, 0
  {
    if v in Walk(cs[0].tree, at + [cs[0].name]) {
      WalkBelow(cs[0].tree, at + [cs[0].name], v);
    } else {
      WalkEachBelow(cs[1..], at, v);
    }
  }

  predicate CanDescend(o: Options, depth: nat) {
    o.recursive && match o.maxDepth case None => true case Some(limit) => depth < limit
  }

  /** The walk has come to `at`, `depth` levels below the listed directory. */
  ghost predicate Reached(o: Options, depth: nat, at: Path) {
    depth <= |at| && (o.includeHidden || !HiddenBelow(|at| - depth, at)) && (depth == 0 || CanDescend(o, depth))
  }

  lemma HiddenOneMore(root: nat, at: Path, name: Name)
    requires root <= |at|
    ensures HiddenBelow(root, at + [name]) <==> HiddenBelow(root, at) || Hidden(name)
  {
    if i :| root <= i < |at| && Hidden(at[i]) {
      assert Hidden((at + [name])[i]);
    }
    if Hidden(name) {
      assert Hidden((at + [name])[|at|]);
    }
  }

  lemma HiddenStays(root: nat, at: Path, path: Path)
    requires at <= path && HiddenBelow(root, at)
    ensures HiddenBelow(root, path)
  {
    var i :| root <= i < |at| && Hidden(at[i]);
    assert Hidden(path[i]);
  }

  /** One child's share of the listing. */
  lemma ChildShare(o: Options, depth: nat, at: Path, c: Child)
    requires Reached(o, depth, at)
    ensures var root, here := |at| - depth, at + [c.name];
            var share := Filtered(o, root, Walk(Canon(c.tree), here));
            if Hidden(c.name) && !o.includeHidden then share == []
            else
              share == [Visit(here, NodeOf(c.tree))]
                       + (if c.tree.DirTree? && CanDescend(o, depth + 1)
                          then Filtered(o, root, BelowRoot(c.tree, here)) else []) &&
              (CanDescend(o, depth + 1) ==> Reached(o, depth + 1, here))
  {
    hide Canon, CanonEach, Walk, WalkEach, BelowRoot, HiddenBelow;
    var root, here := |at| - depth, at + [c.name];
    var first, below := Visit(here, NodeOf(c.tree)), if c.tree.DirTree? then BelowRoot(c.tree, here) else [];
    HiddenOneMore(root, at, c.name);
    WalkSplits(c.tree, here);
    FilteredAppend(o, root, [first], below);
    assert [first][1..] == [];
    if Hidden(c.name) && !o.includeHidden {
      forall v | v in below
        ensures !Shown(o, root, v.path)
      {
        BelowIsDeeper(c.tree, here, v);
        HiddenStays(root, here, v.path);
      }
      FilteredNothing(o, root, below);
    } else if !CanDescend(o, depth + 1) {
      forall v | v in below
        ensures !Shown(o, root, v.path)
      {
        BelowIsDeeper(c.tree, here, v);
      }
      FilteredNothing(o, root, below);
    }
  }

  lemma WalkSplits(t: Tree, at: Path)
    ensures Walk(Canon(t), at) == [Visit(at, NodeOf(t))] + if t.DirTree? then BelowRoot(t, at) else []
  {
    if t.DirTree? {
      SortCanonCommute(t.children);
    }
  }

  lemma BelowIsDeeper(t: Tree, at: Path, v: Visit)
    requires t.DirTree? && v in BelowRoot(t, at)
    ensures at < v.path
  {
    WalkEachBelow(CanonEach(SortChildren(t.children)), at, v);
  }

  // ---------------------------------------------------------------------
  // The pruned walk
  // ---------------------------------------------------------------------

  /** The vector of entries being filled. */
  class EntryList {
    var entries: seq<ListEntry>

    constructor ()
      ensures entries == []
    {
      entries := [];
    }
  }

  /** collect_fs_entries: appends exactly the shown part of the sorted preorder below the directory. */
  method CollectFsEntries(h: Hash, t: Tree, at: Path, o: Options, depth: nat, acc: EntryList)
    requires t.DirTree? && Reached(o, depth, at)
    modifies acc
    ensures acc.entries ==
            old(acc.entries) + EntriesOf(h, o.hashed, Filtered(o, |at| - depth, BelowRoot(t, at)))
    decreases t, 1
  {
    var children := SortChildren(t.children);
    SortChildrenKeeps(t.children);
    assert BelowRoot(t, at) == WalkEach(CanonEach(children), at);
    hide *;
    CollectChildren(h, children, at, o, depth, acc, t);
  }

  method CollectChildren(h: Hash, children: seq<Child>, at: Path, o: Options, depth: nat, acc: EntryList, ghost parent: Tree)
    requires Reached(o, depth, at)
    requires forall c | c in children :: c.tree < parent
    modifies acc
    ensures acc.entries ==
            old(acc.entries) + EntriesOf(h, o.hashed, Filtered(o, |at| - depth, WalkEach(CanonEach(children), at)))
    decreases parent, 0
  {
    hide *;
    ReachedDepth(o, depth, at);
    ghost var root, start, vs: seq<Visit> := |at| - depth, acc.entries, [];
    CollectingStarts(h, o, root, at, children, start);
    for i := 0 to |children|
      invariant Collected(h, o, root, at, children, i, vs, start, acc.entries)
    {
      ghost var before := acc.entries;
      CollectChild(h, children[i], at, o, depth, acc, parent);
      CollectingStep(h, o, root, at, children, i, vs, start, before, acc.entries);
      vs := vs + Walk(Canon(children[i].tree), at + [children[i].name]);
    }
    CollectingEnds(h, o, root, at, children, vs, start, acc.entries);
  }

  lemma ReachedDepth(o: Options, depth: nat, at: Path)
    requires Reached(o, depth, at)
    ensures depth <= |at|
  {
  }

  /** `vs` is the walk of the first `i` children, and its shown part has been appended. */
  ghost predicate Collected(h: Hash, o: Options, root: nat, at: Path, children: seq<Child>, i: nat,
                            vs: seq<Visit>, start: seq<ListEntry>, entries: seq<ListEntry>)
  {
    i <= |children| && entries == start + EntriesOf(h, o.hashed, Filtered(o, root, vs)) &&
    vs + WalkEach(CanonEach(children)[i..], at) == WalkEach(CanonEach(children), at)
  }

  lemma CollectingStarts(h: Hash, o: Options, root: nat, at: Path, children: seq<Child>, start: seq<ListEntry>)
    ensures Collected(h, o, root, at, children, 0, [], start, start)
  {
    var canon := CanonEach(children);
    assert canon[0..] == canon && [] + WalkEach(canon, at) == WalkEach(canon, at);
    assert start + EntriesOf(h, o.hashed, Filtered(o, root, [])) == start;
  }

  lemma CollectingStep(h: Hash, o: Options, root: nat, at: Path, children: seq<Child>, i: nat,
                       vs: seq<Visit>, start: seq<ListEntry>, before: seq<ListEntry>, entries: seq<ListEntry>)
    requires i < |children|
    requires var more := Walk(Canon(children[i].tree), at + [children[i].name]);
             Collected(h, o, root, at, children, i, vs, start, before) &&
             entries == before + EntriesOf(h, o.hashed, Filtered(o, root, more))
    ensures Collected(h, o, root, at, children, i + 1, vs + Walk(Canon(children[i].tree), at + [children[i].name]),
                      start, entries)
  {
    hide Canon, CanonEach, Walk, WalkEach, Filtered, EntriesOf;
    var more := Walk(Canon(children[i].tree), at + [children[i].name]);
    NextChild(children, i, at, vs);
    FilteredAppend(o, root, vs, more);
    var a, b := Filtered(o, root, vs), Filtered(o, root, more);
    EntriesAppend(h, o.hashed, a, b);
    Associate(start, EntriesOf(h, o.hashed, a), EntriesOf(h, o.hashed, b));
  }

  lemma EntriesAppend(h: Hash, hashed: bool, a: seq<Visit>, b: seq<Visit>)
    ensures EntriesOf(h, hashed, a + b) == EntriesOf(h, hashed, a) + EntriesOf(h, hashed, b)
  {
    hide EntryAt;
  }

  lemma CollectingEnds(h: Hash, o: Options, root: nat, at: Path, children: seq<Child>,
                       vs: seq<Visit>, start: seq<ListEntry>, entries: seq<ListEntry>)
    requires Collected(h, o, root, at, children, |children|, vs, start, entries)
    ensures entries == start + EntriesOf(h, o.hashed, Filtered(o, root, WalkEach(CanonEach(children), at)))
  {
    WalkEachEnd(CanonEach(children), at);
    assert vs + [] == vs;
  }

  method CollectChild(h: Hash, c: Child, at: Path, o: Options, depth: nat, acc: EntryList, ghost parent: Tree)
    requires Reached(o, depth, at) && c.tree < parent
    modifies acc
    ensures acc.entries == old(acc.entries)
                           + EntriesOf(h, o.hashed, Filtered(o, |at| - depth, Walk(Canon(c.tree), at + [c.name])))
    decreases parent, 0, 0
  {
    hide *;
    ChildEntries(h, o, depth, at, c);
    if Hidden(c.name) && !o.includeHidden {
      return;
    }
    ghost var start := acc.entries;
    ghost var entry := EntryAt(h, o.hashed, Visit(at + [c.name], NodeOf(c.tree)));
    acc.entries := acc.entries + [EntryAt(h, o.hashed, Visit(at + [c.name], NodeOf(c.tree)))];
    var childDepth := depth + 1;
    if c.tree.DirTree? && CanDescend(o, childDepth) {
      CollectFsEntries(h, c.tree, at + [c.name], o, childDepth, acc);
      Associate(start, [entry], EntriesOf(h, o.hashed, Filtered(o, |at| - depth, BelowRoot(c.tree, at + [c.name]))));
    }
  }

  /** The entries of one child's share. */
  lemma ChildEntries(h: Hash, o: Options, depth: nat, at: Path, c: Child)
    requires Reached(o, depth, at)
    ensures depth <= |at| && (CanDescend(o, depth + 1) && !(Hidden(c.name) && !o.includeHidden) ==>
                                Reached(o, depth + 1, at + [c.name]))
    ensures var root, here := |at| - depth, at + [c.name];
            EntriesOf(h, o.hashed, Filtered(o, root, Walk(Canon(c.tree), here))) ==
            if Hidden(c.name) && !o.includeHidden then []
            else if c.tree.DirTree? && CanDescend(o, depth + 1) then
              [EntryAt(h, o.hashed, Visit(here, NodeOf(c.tree)))]
              + EntriesOf(h, o.hashed, Filtered(o, root, BelowRoot(c.tree, here)))
            else [EntryAt(h, o.hashed, Visit(here, NodeOf(c.tree)))]
  {
    ChildShare(o, depth, at, c);
    var here := at + [c.name];
    var first := Visit(here, NodeOf(c.tree));
    var later := if c.tree.DirTree? then Filtered(o, |at| - depth, BelowRoot(c.tree, here)) else [];
    OneEntry(h, o.hashed, first);
    hide Canon, Walk, BelowRoot, Filtered, Hidden, EntriesOf, NodeOf, EntryAt;
    EntriesAppend(h, o.hashed, [first], later);
  }

  lemma OneEntry(h: Hash, hashed: bool, v: Visit)
    ensures EntriesOf(h, hashed, [v]) == [EntryAt(h, hashed, v)]
    ensures EntriesOf(h, hashed, []) == []
  {
  }

  /** What fs.list answers for an existing path holding `t`. */
  ghost function Listed(h: Hash, t: Tree, at: Path, o: Options): seq<ListEntry> {
    if t.DirTree? then EntriesOf(h, o.hashed, Filtered(o, |at|, BelowRoot(t, at)))
    else [EntryAt(h, o.hashed, Visit(at, NodeOf(t)))]
  }

  method BlockingFsList(h: Hash, t: Tree, at: Path, o: Options) returns (entries: seq<ListEntry>)
    ensures entries == Listed(h, t, at, o)
  {
    var acc := new EntryList();
    if t.DirTree? {
      CollectFsEntries(h, t, at, o, 0, acc);
    } else {
      acc.entries := acc.entries + [EntryAt(h, o.hashed, Visit(at, NodeOf(t)))];
    }
    entries := acc.entries;
  }

  /** The node `n` at `rel` below the root is shown if the tree holds it and the options let it through, and only then. */
  ghost predicate ShowsExactly(o: Options, t: Tree, at: Path, shown: seq<Visit>, rel: Path, n: Node) {
    Visit(at + rel, n) in shown <==> Lookup(t, rel) == Some(n) && Shown(o, |at|, at + rel)
  }

  /** A listing shows exactly the tree's own nodes that are neither hidden nor too deep, in path order. */
  lemma ListedExact(h: Hash, t: Tree, at: Path, o: Options)
    requires ValidTree(t) && t.DirTree?
    ensures var shown := Filtered(o, |at|, BelowRoot(t, at));
            Listed(h, t, at, o) == EntriesOf(h, o.hashed, shown) && StrictlySorted(shown) &&
            (forall v | v in shown :: at < v.path) &&
            forall rel: Path, n | rel != [] :: ShowsExactly(o, t, at, shown, rel, n)
  {
    hide *;
    ListedIsShown(h, t, at, o);
    SortedBelow(t, at);
    FilteredSorted(o, |at|, BelowRoot(t, at));
    ShownAreDeeper(t, at, o);
    ShownAreTheTrees(t, at, o);
  }

  /** The entry of one node: its path's text, its kind, a file's length, and its digest if that was asked for. */
  ghost predicate Lists(e: ListEntry, h: Hash, hashed: bool, path: Path, n: Node) {
    e.path == PathText(path) &&
    match n
    case FileNode(_, data) =>
      e.kind.FileEntry? && e.size == |data| && e.sha256 == if hashed then Some(h(data)) else None
    case DirNode(_) => e.kind.DirectoryEntry? && e.sha256 == None
  }

  /** Whether the options let a path below the listed directory through. */
  ghost predicate LetThrough(o: Options, rel: Path) {
    (o.includeHidden || forall i | 0 <= i < |rel| :: rel[i][0] != '.') &&
    (|rel| == 1 || (o.recursive && (o.maxDepth.Some? ==> |rel| <= o.maxDepth.value)))
  }

  /** The `k`-th entry lists the node at `paths[k]`. */
  ghost predicate ListsPaths(es: seq<ListEntry>, h: Hash, t: Tree, at: Path, o: Options, paths: seq<Path>) {
    |paths| == |es| &&
    forall k | 0 <= k < |es| :: Lookup(t, paths[k]).Some? && Lists(es[k], h, o.hashed, at + paths[k], Lookup(t, paths[k]).value)
  }

  /**
   A whole listing: of a file its one entry; of a directory one entry for each path of the tree below it that the options
   let through, in strictly increasing order.
   */
  lemma ListingTold(h: Hash, t: Tree, at: Path, o: Options) returns (paths: seq<Path>)
    requires ValidTree(t)
    ensures ListsPaths(Listed(h, t, at, o), h, t, at, o, paths)
    ensures t.FileTree? ==> paths == [[]]
    ensures t.DirTree? ==>
              (forall rel: Path :: rel in paths <==> rel != [] && Lookup(t, rel).Some? && LetThrough(o, rel)) &&
              forall i, j | 0 <= i < j < |paths| :: PathLess(at + paths[i], at + paths[j])
  {
    if t.FileTree? {
      paths := [[]];
      assert at + [] == at;
    } else {
      paths := PathsListed(h, t, at, o);
    }
  }

  lemma PathsListed(h: Hash, t: Tree, at: Path, o: Options) returns (paths: seq<Path>)
    requires ValidTree(t) && t.DirTree?
    ensures ListsPaths(Listed(h, t, at, o), h, t, at, o, paths)
    ensures forall rel: Path :: rel in paths <==> rel != [] && Lookup(t, rel).Some? && LetThrough(o, rel)
    ensures forall i, j | 0 <= i < j < |paths| :: PathLess(at + paths[i], at + paths[j])
  {
    hide *;
    ListedExact(h, t, at, o);
    ListedIsShown(h, t, at, o);
    var shown := Filtered(o, |at|, BelowRoot(t, at));
    paths := seq(|shown|, k requires 0 <= k < |shown| => if |at| <= |shown[k].path| then shown[k].path[|at|..] else []);
    forall k | 0 <= k < |shown|
      ensures at + paths[k] == shown[k].path && paths[k] != [] && Lookup(t, paths[k]) == Some(shown[k].node)
      ensures Shown(o, |at|, at + paths[k])
    {
      ShownOne(t, at, o, shown, k);
    }
    ShownInOrder(shown, at, paths);
    EntriesListed(h, t, at, o, shown, paths);
    forall rel: Path
      ensures rel in paths <==> rel != [] && Lookup(t, rel).Some? && LetThrough(o, rel)
    {
      ListedIff(t, at, o, shown, paths, rel);
    }
  }

  lemma ShownOne(t: Tree, at: Path, o: Options, shown: seq<Visit>, k: nat)
    requires k < |shown| && (forall v | v in shown :: at < v.path)
    requires forall rel: Path, n | rel != [] :: ShowsExactly(o, t, at, shown, rel, n)
    ensures var rel := shown[k].path[|at|..];
            at + rel == shown[k].path && rel != [] && Lookup(t, rel) == Some(shown[k].node) && Shown(o, |at|, at + rel)
  {
    hide Lookup, Shown;
    var v := shown[k];
    assert v in shown;
    var rel := v.path[|at|..];
    assert v == Visit(at + rel, v.node);
    assert ShowsExactly(o, t, at, shown, rel, v.node);
  }

  lemma ShownInOrder(shown: seq<Visit>, at: Path, paths: seq<Path>)
    requires StrictlySorted(shown) && |paths| == |shown| && forall k | 0 <= k < |shown| :: at + paths[k] == shown[k].path
    ensures forall i, j | 0 <= i < j < |paths| :: PathLess(at + paths[i], at + paths[j])
  {
    hide PathLess;
  }

  lemma EntriesListed(h: Hash, t: Tree, at: Path, o: Options, shown: seq<Visit>, paths: seq<Path>)
    requires |paths| == |shown| &&
             forall k | 0 <= k < |shown| :: at + paths[k] == shown[k].path && Lookup(t, paths[k]) == Some(shown[k].node)
    ensures ListsPaths(EntriesOf(h, o.hashed, shown), h, t, at, o, paths)
  {
    hide Lookup, PathText;
  }

  lemma ListedIff(t: Tree, at: Path, o: Options, shown: seq<Visit>, paths: seq<Path>, rel: Path)
    requires |paths| == |shown|
    requires forall k | 0 <= k < |shown| ::
               at + paths[k] == shown[k].path && paths[k] != [] && Lookup(t, paths[k]) == Some(shown[k].node) &&
               Shown(o, |at|, at + paths[k])
    requires forall rel: Path, n | rel != [] :: ShowsExactly(o, t, at, shown, rel, n)
    ensures rel in paths <==> rel != [] && Lookup(t, rel).Some? && LetThrough(o, rel)
  {
    hide Lookup, Shown, LetThrough;
    if rel != [] {
      ShownIsLetThrough(o, at, rel);
      if Lookup(t, rel).Some? && Shown(o, |at|, at + rel) {
        assert ShowsExactly(o, t, at, shown, rel, Lookup(t, rel).value);
        var k :| 0 <= k < |shown| && shown[k] == Visit(at + rel, Lookup(t, rel).value);
        assert at + paths[k] == at + rel;
        assert (at + paths[k])[|at|..] == paths[k] && (at + rel)[|at|..] == rel;
        assert paths[k] == rel;
      }
    }
  }

  lemma ShownIsLetThrough(o: Options, at: Path, rel: Path)
    requires rel != []
    ensures Shown(o, |at|, at + rel) <==> LetThrough(o, rel)
  {
    var path := at + rel;
    if i :| |at| <= i < |path| && Hidden(path[i]) {
      assert rel[i - |at|][0] == '.';
    }
    if i :| 0 <= i < |rel| && rel[i][0] == '.' {
      assert Hidden(path[|at| + i]);
    }
  }

  lemma ListedIsShown(h: Hash, t: Tree, at: Path, o: Options)
    requires t.DirTree?
    ensures Listed(h, t, at, o) == EntriesOf(h, o.hashed, Filtered(o, |at|, BelowRoot(t, at)))
  {
    hide EntriesOf, Filtered, BelowRoot;
  }

  lemma ShownAreDeeper(t: Tree, at: Path, o: Options)
    requires t.DirTree?
    ensures forall v | v in Filtered(o, |at|, BelowRoot(t, at)) :: at < v.path
  {
    hide *;
    forall v | v in Filtered(o, |at|, BelowRoot(t, at))
      ensures at < v.path
    {
      FilteredMember(o, |at|, BelowRoot(t, at), v);
      BelowIsDeeper(t, at, v);
    }
  }

  lemma ShownAreTheTrees(t: Tree, at: Path, o: Options)
    requires ValidTree(t) && t.DirTree?
    ensures forall rel: Path, n | rel != [] :: ShowsExactly(o, t, at, Filtered(o, |at|, BelowRoot(t, at)), rel, n)
  {
    hide Filtered, BelowRoot, Lookup, Shown, ValidTree;
    var all := BelowRoot(t, at);
    forall rel: Path, n | rel != []
      ensures ShowsExactly(o, t, at, Filtered(o, |at|, all), rel, n)
    {
      FilteredMember(o, |at|, all, Visit(at + rel, n));
      BelowIsTree(t, at, rel, n);
    }
  }

  lemma SortedBelow(t: Tree, at: Path)
    requires ValidTree(t) && t.DirTree?
    ensures StrictlySorted(BelowRoot(t, at))
  {
    hide Canon, Walk, WalkEach, BelowRoot, SortedTree, ValidTree, PathLess;
    CanonSorted(t);
    WalkSorted(Canon(t), at);
    WalkSplits(t, at);
    var whole, below := Walk(Canon(t), at), BelowRoot(t, at);
    forall i, j | 0 <= i < j < |below|
      ensures PathLess(below[i].path, below[j].path)
    {
      assert whole[i + 1] == below[i] && whole[j + 1] == below[j];
    }
  }

  lemma BelowIsTree(t: Tree, at: Path, rel: Path, n: Node)
    requires ValidTree(t) && t.DirTree? && rel != []
    ensures Visit(at + rel, n) in BelowRoot(t, at) <==> Lookup(t, rel) == Some(n)
  {
    var v := Visit(at + rel, n);
    CanonSorted(t);
    SortedTreeIsValid(Canon(t));
    CanonLookup(t, rel);
    WalkSplits(t, at);
    assert (at + rel)[|at|..] == rel;
    hide Canon, CanonEach, BelowRoot, Walk, WalkEach, SortChildren, ValidTree, SortedTree, Lookup;
    if v in BelowRoot(t, at) {
      assert v in Walk(Canon(t), at);
      WalkSound(Canon(t), at, v);
    }
    if Lookup(t, rel) == Some(n) {
      WalkComplete(Canon(t), at, rel);
      assert |v.path| != |at|;
    }
  }

  lemma {:induction false} FilteredSorted(o: Options, root: nat, vs: seq<Visit>)
    requires StrictlySorted(vs)
    ensures StrictlySorted(Filtered(o, root, vs))
  {
    if vs != [] {
      var later := Filtered(o, root, vs[1..]);
      FilteredSorted(o, root, vs[1..]);
      forall j | 0 <= j < |later|
        ensures PathLess(vs[0].path, later[j].path)
      {
        FilteredMember(o, root, vs[1..], later[j]);
        var k :| 0 <= k < |vs[1..]| && vs[1..][k] == later[j];
        assert vs[k + 1] == later[j];
      }
    }
  }
}
