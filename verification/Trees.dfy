/**
 Symlink-free file trees, and the sorted preorder walk that manifests, listings
 and state collectors all follow.

 A directory's children are kept in whatever order reading it returns them;
 Canon sorts them at every level.
 */
module Trees {
  import opened Base
  import opened Paths

  /** Permission bits, already masked with 0o7777. */
  type Mode = m: int | 0 <= m < 4096

  datatype Tree = FileTree(mode: Mode, data: seq<Byte>) | DirTree(mode: Mode, children: seq<Child>)
  datatype Child = Child(name: Name, tree: Tree)
  datatype Node = FileNode(mode: Mode, data: seq<Byte>) | DirNode(mode: Mode)
  datatype Visit = Visit(path: Path, node: Node)

  function NodeOf(t: Tree): Node {
    match t
    case FileTree(mode, data) => FileNode(mode, data)
    case DirTree(mode, _) => DirNode(mode)
  }

  ghost predicate DistinctNames(cs: seq<Child>) {
    forall i, j | 0 <= i < j < |cs| :: cs[i].name != cs[j].name
  }

  /** No directory of the tree holds a name twice. */
  ghost predicate ValidTree(t: Tree) {
    t.DirTree? ==> DistinctNames(t.children) && forall c | c in t.children :: ValidTree(c.tree)
  }

  function FindChild(cs: seq<Child>, name: Name): Option<Tree> {
    if cs == [] then None
    else if cs[0].name == name then Some(cs[0].tree)
    else FindChild(cs[1..], name)
  }

  /** What the tree holds at a path below its root. */
  function Lookup(t: Tree, path: Path): Option<Node>
    decreases |path|
  {
    if path == [] then Some(NodeOf(t))
    else if t.FileTree? then None
    else
      match FindChild(t.children, path[0])
      case None => None
      case Some(c) => Lookup(c, path[1..])
  }

  lemma {:induction false} FindChildIn(cs: seq<Child>, name: Name)
    ensures FindChild(cs, name).Some? ==> Child(name, FindChild(cs, name).value) in cs
    ensures FindChild(cs, name).None? ==> forall c | c in cs :: c.name != name
  {
    if cs != [] {
      FindChildIn(cs[1..], name);
      assert cs == [cs[0]] + cs[1..];
    }
  }

  lemma {:induction false} FindChildAt(cs: seq<Child>, i: nat)
    requires DistinctNames(cs) && i < |cs|
    ensures FindChild(cs, cs[i].name) == Some(cs[i].tree)
  {
    if i != 0 {
      FindChildAt(cs[1..], i - 1);
    }
  }

  // ---------------------------------------------------------------------
  // Sorting children
  // ---------------------------------------------------------------------

  ghost predicate SortedChildren(cs: seq<Child>) {
    forall i, j | 0 <= i < j < |cs| :: NameLess(cs[i].name, cs[j].name)
  }

  function InsertChild(c: Child, cs: seq<Child>): seq<Child> {
    if cs == [] then [c]
    else if NameLess(cs[0].name, c.name) then [cs[0]] + InsertChild(c, cs[1..])
    else [c] + cs
  }

  function SortChildren(cs: seq<Child>): seq<Child> {
    if cs == [] then [] else InsertChild(cs[0], SortChildren(cs[1..]))
  }

  lemma {:induction false} InsertChildKeeps(c: Child, cs: seq<Child>)
    ensures multiset(InsertChild(c, cs)) == multiset{c} + multiset(cs)
  {
    if cs != [] {
      assert cs == [cs[0]] + cs[1..];
      InsertChildKeeps(c, cs[1..]);
    }
  }

  lemma {:induction false} SortChildrenKeeps(cs: seq<Child>)
    ensures multiset(SortChildren(cs)) == multiset(cs)
    ensures forall c :: c in SortChildren(cs) <==> c in cs
  {
    if cs != [] {
      assert cs == [cs[0]] + cs[1..];
      SortChildrenKeeps(cs[1..]);
      InsertChildKeeps(cs[0], SortChildren(cs[1..]));
    }
    assert forall c :: c in SortChildren(cs) <==> c in multiset(SortChildren(cs));
    assert forall c :: c in cs <==> c in multiset(cs);
  }

  lemma {:induction false} InsertChildSorts(c: Child, cs: seq<Child>)
    requires SortedChildren(cs) && forall d | d in cs :: d.name != c.name
    ensures SortedChildren(InsertChild(c, cs))
    ensures forall name: Name :: FindChild(InsertChild(c, cs), name) ==
                           if name == c.name then Some(c.tree) else FindChild(cs, name)
  {
    if cs != [] {
      NameOrderTotal(cs[0].name, c.name);
      if NameLess(cs[0].name, c.name) {
        InsertChildSorts(c, cs[1..]);
        InsertChildKeeps(c, cs[1..]);
        var later := InsertChild(c, cs[1..]);
        forall j | 0 <= j < |later|
          ensures NameLess(cs[0].name, later[j].name)
        {
          assert later[j] in multiset(later);
        }
      } else {
        forall j | 0 <= j < |cs|
          ensures NameLess(c.name, cs[j].name)
        {
          if j > 0 {
            NameOrderTransitive(c.name, cs[0].name, cs[j].name);
          }
        }
      }
    }
  }

  lemma {:induction false} SortChildrenSorts(cs: seq<Child>)
    requires DistinctNames(cs)
    ensures SortedChildren(SortChildren(cs))
    ensures forall name: Name :: FindChild(SortChildren(cs), name) == FindChild(cs, name)
  {
    if cs != [] {
      SortChildrenSorts(cs[1..]);
      SortChildrenKeeps(cs[1..]);
      InsertChildSorts(cs[0], SortChildren(cs[1..]));
    }
  }

  // ---------------------------------------------------------------------
  // The canonical form
  // ---------------------------------------------------------------------

  function Canon(t: Tree): Tree
    decreases t, 1
  {
    match t
    case FileTree(_, _) => t
    case DirTree(mode, children) => DirTree(mode, SortChildren(CanonEach(children)))
  }

  function CanonEach(cs: seq<Child>): (r: seq<Child>)
    ensures |r| == |cs|
    ensures forall i | 0 <= i < |cs| :: r[i] == Child(cs[i].name, Canon(cs[i].tree))
    decreases cs, 0
  {
    if cs == [] then [] else [Child(cs[0].name, Canon(cs[0].tree))] + CanonEach(cs[1..])
  }

  /** Every directory's children are in strictly increasing name order. */
  ghost predicate SortedTree(t: Tree) {
    t.DirTree? ==> SortedChildren(t.children) && forall c | c in t.children :: SortedTree(c.tree)
  }

  lemma {:induction false} SortedTreeIsValid(t: Tree)
    requires SortedTree(t)
    ensures ValidTree(t)
  {
    if t.DirTree? {
      forall i, j | 0 <= i < j < |t.children|
        ensures t.children[i].name != t.children[j].name
      {
        NameOrderTotal(t.children[i].name, t.children[j].name);
      }
      forall c | c in t.children
        ensures ValidTree(c.tree)
      {
        SortedTreeIsValid(c.tree);
      }
    }
  }

  lemma {:induction false} CanonSorted(t: Tree)
    requires ValidTree(t)
    ensures SortedTree(Canon(t))
  {
    if t.DirTree? {
      var each := CanonEach(t.children);
      SortChildrenSorts(each);
      SortChildrenKeeps(each);
      forall c | c in Canon(t).children
        ensures SortedTree(c.tree)
      {
        assert c in each;
        var i :| 0 <= i < |each| && each[i] == c;
        CanonSorted(t.children[i].tree);
      }
    }
  }

  lemma {:induction false} FindChildCanon(cs: seq<Child>, name: Name)
    ensures FindChild(CanonEach(cs), name) ==
            match FindChild(cs, name) case None => None case Some(c) => Some(Canon(c))
  {
    if cs != [] {
      FindChildCanon(cs[1..], name);
      assert CanonEach(cs)[1..] == CanonEach(cs[1..]);
    }
  }

  /** Sorting changes no path's content. */
  lemma {:induction false} CanonLookup(t: Tree, path: Path)
    requires ValidTree(t)
    ensures Lookup(Canon(t), path) == Lookup(t, path)
    decreases |path|
  {
    if path != [] && t.DirTree? {
      SortChildrenSorts(CanonEach(t.children));
      FindChildCanon(t.children, path[0]);
      FindChildIn(t.children, path[0]);
      match FindChild(t.children, path[0])
      case None =>
      case Some(c) => CanonLookup(c, path[1..]);
    }
  }

  /** Sorting by name commutes with canonicalising the subtrees. */
  lemma {:induction false} SortCanonCommute(cs: seq<Child>)
    ensures SortChildren(CanonEach(cs)) == CanonEach(SortChildren(cs))
  {
    if cs != [] {
      SortCanonCommute(cs[1..]);
      assert CanonEach(cs)[1..] == CanonEach(cs[1..]);
      InsertCanonCommute(cs[0], SortChildren(cs[1..]));
    }
  }

  lemma {:induction false} InsertCanonCommute(c: Child, cs: seq<Child>)
    ensures InsertChild(Child(c.name, Canon(c.tree)), CanonEach(cs)) == CanonEach(InsertChild(c, cs))
  {
    if cs != [] {
      assert CanonEach(cs)[1..] == CanonEach(cs[1..]);
      if NameLess(cs[0].name, c.name) {
        InsertCanonCommute(c, cs[1..]);
      }
    }
  }

  // ---------------------------------------------------------------------
  // The preorder walk
  // ---------------------------------------------------------------------

  /** Root first, then each child's subtree in order; `at` is the root's own path. */
  function Walk(t: Tree, at: Path): seq<Visit>
    decreases t, 1
  {
    [Visit(at, NodeOf(t))] + (if t.DirTree? then WalkEach(t.children, at) else [])
  }

  function WalkEach(cs: seq<Child>, at: Path): seq<Visit>
    decreases cs, 0
  {
    if cs == [] then [] else Walk(cs[0].tree, at + [cs[0].name]) + WalkEach(cs[1..], at)
  }

  /** A visited path leads to the visited node. */
  lemma {:induction false} WalkSound(t: Tree, at: Path, v: Visit)
    requires ValidTree(t) && v in Walk(t, at)
    ensures at <= v.path && Lookup(t, v.path[|at|..]) == Some(v.node)
    decreases t, 1
  {
    if v != Visit(at, NodeOf(t)) {
      var i := WalkEachSound(t.children, at, v);
      FindChildAt(t.children, i);
      var below := at + [t.children[i].name];
      assert v.path[|at|..] == [t.children[i].name] + v.path[|below|..];
    }
  }

  lemma {:induction false} WalkEachSound(cs: seq<Child>, at: Path, v: Visit) returns (i: nat)
    requires forall c | c in cs :: ValidTree(c.tree)
    requires v in WalkEach(cs, at)
    ensures i < |cs| && at + [cs[i].name] <= v.path
    ensures Lookup(cs[i].tree, v.path[|at| + 1..]) == Some(v.node)
    decreases cs, 0
  {
    if v in Walk(cs[0].tree, at + [cs[0].name]) {
      i := 0;
      WalkSound(cs[0].tree, at + [cs[0].name], v);
    } else {
      i := WalkEachSound(cs[1..], at, v);
      i := i + 1;
    }
  }

  /** Every path of the tree is visited. */
  lemma {:induction false} WalkComplete(t: Tree, at: Path, path: Path)
    requires Lookup(t, path).Some?
    ensures Visit(at + path, Lookup(t, path).value) in Walk(t, at)
    decreases |path|
  {
    if path == [] {
      assert at + path == at;
    } else {
      FindChildIn(t.children, path[0]);
      var c := FindChild(t.children, path[0]).value;
      WalkComplete(c, at + [path[0]], path[1..]);
      assert at + [path[0]] + path[1..] == at + path;
      WalkEachHolds(t.children, at, Child(path[0], c), Visit(at + path, Lookup(t, path).value));
    }
  }

  lemma {:induction false} WalkEachHolds(cs: seq<Child>, at: Path, c: Child, v: Visit)
    requires c in cs && v in Walk(c.tree, at + [c.name])
    ensures v in WalkEach(cs, at)
  {
    if c != cs[0] {
      WalkEachHolds(cs[1..], at, c, v);
    }
  }

  ghost predicate StrictlySorted(vs: seq<Visit>) {
    forall i, j | 0 <= i < j < |vs| :: PathLess(vs[i].path, vs[j].path)
  }

  /** The walk of a sorted tree visits paths in strictly increasing order. */
  lemma {:induction false} WalkSorted(t: Tree, at: Path)
    requires SortedTree(t)
    ensures StrictlySorted(Walk(t, at))
    decreases t, 1
  {
    if t.DirTree? {
      WalkEachSorted(t.children, at);
      var vs := WalkEach(t.children, at);
      forall j | 0 <= j < |vs|
        ensures PathLess(at, vs[j].path)
      {
        SortedTreesAreValid(t.children);
        var _ := WalkEachSound(t.children, at, vs[j]);
        PrefixFirst(at, vs[j].path);
      }
    }
  }

  lemma SortedTreesAreValid(cs: seq<Child>)
    requires forall c | c in cs :: SortedTree(c.tree)
    ensures forall c | c in cs :: ValidTree(c.tree)
  {
    forall c | c in cs
      ensures ValidTree(c.tree)
    {
      SortedTreeIsValid(c.tree);
    }
  }

  lemma {:induction false} WalkEachSorted(cs: seq<Child>, at: Path)
    requires SortedChildren(cs) && forall c | c in cs :: SortedTree(c.tree)
    ensures StrictlySorted(WalkEach(cs, at))
    decreases cs, 0
  {
    if cs != [] {
      var first, later := Walk(cs[0].tree, at + [cs[0].name]), WalkEach(cs[1..], at);
      WalkSorted(cs[0].tree, at + [cs[0].name]);
      WalkEachSorted(cs[1..], at);
      SortedTreesAreValid(cs);
      forall i, j | 0 <= i < |first| && 0 <= j < |later|
        ensures PathLess(first[i].path, later[j].path)
      {
        WalkSound(cs[0].tree, at + [cs[0].name], first[i]);
        var k := WalkEachSound(cs[1..], at, later[j]);
        DivergenceDecides(at, first[i].path, later[j].path);
      }
    }
  }

  /** What lies above a path that a tree holds is a directory of the tree. */
  lemma {:induction false} LookupPrefix(t: Tree, path: Path, k: nat)
    requires Lookup(t, path).Some? && k < |path|
    ensures Lookup(t, path[..k]).Some? && Lookup(t, path[..k]).value.DirNode?
    decreases k
  {
    if k != 0 {
      var c := FindChild(t.children, path[0]).value;
      LookupPrefix(c, path[1..], k - 1);
      assert path[1..][..k - 1] == path[..k][1..];
    }
  }

  /** The directory holding a visited path is visited, and earlier. */
  lemma WalkParentFirst(t: Tree, at: Path, j: nat) returns (i: nat)
    requires SortedTree(t) && 0 < j < |Walk(t, at)|
    ensures i < j && Walk(t, at)[i].node.DirNode?
    ensures at < Walk(t, at)[j].path
    ensures Walk(t, at)[i].path == Walk(t, at)[j].path[..|Walk(t, at)[j].path| - 1]
  {
    var vs := Walk(t, at);
    var path := vs[j].path;
    SortedTreeIsValid(t);
    WalkSound(t, at, vs[j]);
    WalkSorted(t, at);
    assert vs[0].path == at;
    PathOrderAsymmetric(at, at);
    assert path != at;
    var below := path[|at|..];
    LookupPrefix(t, below, |below| - 1);
    WalkComplete(t, at, below[..|below| - 1]);
    assert at + below[..|below| - 1] == path[..|path| - 1];
    i :| 0 <= i < |vs| && vs[i] == Visit(path[..|path| - 1], Lookup(t, below[..|below| - 1]).value);
    PrefixFirst(vs[i].path, path);
    PathOrderAsymmetric(vs[i].path, path);
  }
}
