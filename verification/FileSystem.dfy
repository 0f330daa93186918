/**
 A file system as a map from component lists to nodes, the system calls the
 programs make on it, and the trees it holds.
 */
module FileSystem {
  import opened Base
  import opened Frames
  import opened Paths
  import opened Trees

  type FS = map<Path, Node>

  datatype FsError =
    | NotFound
    | NotADirectory
    | IsADirectory
    | AlreadyExists
    | DirectoryNotEmpty
    | InvalidMove
    | Busy
    | DiskFull

  function Parent(p: Path): Path
    requires p != []
  {
    p[..|p| - 1]
  }

  /** The root is a directory and everything else lies in a directory. */
  ghost predicate WellFormed(fs: FS) {
    [] in fs && fs[[]].DirNode? &&
    forall p | p in fs && p != [] :: Parent(p) in fs && fs[Parent(p)].DirNode?
  }

  function Get(fs: FS, p: Path): Option<Node> {
    if p in fs then Some(fs[p]) else None
  }

  /** A file system is what it holds at each path. */
  lemma SameNodes(a: FS, b: FS)
    requires forall q :: Get(a, q) == Get(b, q)
    ensures a == b
  {
    forall q
      ensures q in a <==> q in b
      ensures q in a ==> a[q] == b[q]
    {
      assert Get(a, q) == Get(b, q);
    }
  }

  predicate IsDir(fs: FS, p: Path) {
    p in fs && fs[p].DirNode?
  }

  predicate IsFile(fs: FS, p: Path) {
    p in fs && fs[p].FileNode?
  }

  /** Some proper prefix of the path is a file. */
  predicate FileAbove(fs: FS, p: Path) {
    exists k | 0 <= k < |p| :: IsFile(fs, p[..k])
  }

  lemma {:induction false} PrefixesAreDirs(fs: FS, p: Path, q: Path)
    requires WellFormed(fs) && p in fs && q < p
    ensures IsDir(fs, q)
    decreases |p|
  {
    if q != Parent(p) {
      PrefixesAreDirs(fs, Parent(p), q);
    }
  }

  lemma NoFileAboveExisting(fs: FS, p: Path)
    requires WellFormed(fs) && p in fs
    ensures !FileAbove(fs, p)
  {
    forall k | 0 <= k < |p|
      ensures !IsFile(fs, p[..k])
    {
      PrefixesAreDirs(fs, p, p[..k]);
    }
  }

  /** metadata(): absent and below-a-file are different answers. */
  function Stat(fs: FS, p: Path): Result<Option<Node>, FsError> {
    if p in fs then Ok(Some(fs[p]))
    else if FileAbove(fs, p) then Err(NotADirectory)
    else Ok(None)
  }

  // ---------------------------------------------------------------------
  // Creating directories
  // ---------------------------------------------------------------------

  /** m & !umask */
  function Unmask(m: Mode, umask: Mode): Mode {
    if BitAnd(m, umask) <= m then m - BitAnd(m, umask) else 0
  }

  predicate BitSet(m: nat, k: nat) {
    Pow2Positive(k);
    m / Pow2(k) % 2 == 1
  }

  lemma {:induction false} Pow2Positive(k: nat)
    ensures Pow2(k) >= 1
  {
    if k > 0 {
      Pow2Positive(k - 1);
    }
  }

  lemma {:induction false} AndIsLess(m: nat, mask: nat)
    ensures BitAnd(m, mask) <= m
  {
    if m != 0 {
      AndIsLess(m / 2, mask / 2);
    }
  }

  lemma BitStep(m: nat, k: nat)
    requires k > 0
    ensures BitSet(m, k) <==> BitSet(m / 2, k - 1)
  {
    Pow2Positive(k - 1);
    HalfMod(m, Pow2(k - 1));
  }

  lemma AndUnfolds(m: nat, mask: nat)
    ensures BitAnd(m, mask) <= m && BitAnd(m / 2, mask / 2) <= m / 2
    ensures m - BitAnd(m, mask) ==
            2 * (m / 2 - BitAnd(m / 2, mask / 2)) + if m % 2 == 1 && mask % 2 == 0 then 1 else 0
  {
    AndIsLess(m, mask);
    AndIsLess(m / 2, mask / 2);
    if m == 0 {
      assert BitAnd(m, mask) == 0 && BitAnd(m / 2, mask / 2) == 0;
    }
  }

  lemma LowBit(m: nat)
    ensures BitSet(m, 0) <==> m % 2 == 1
  {
    assert Pow2(0) == 1;
  }

  lemma {:induction false} WithoutBits(m: nat, mask: nat, k: nat)
    ensures BitAnd(m, mask) <= m && (BitSet(m - BitAnd(m, mask), k) <==> BitSet(m, k) && !BitSet(mask, k))
    decreases k
  {
    hide *;
    AndUnfolds(m, mask);
    var rest, half := m - BitAnd(m, mask), m / 2 - BitAnd(m / 2, mask / 2);
    if k == 0 {
      LowBit(rest);
      LowBit(m);
      LowBit(mask);
    } else {
      assert rest / 2 == half;
      BitStep(rest, k);
      BitStep(m, k);
      BitStep(mask, k);
      WithoutBits(m / 2, mask / 2, k - 1);
    }
  }

  /** The umask takes exactly its own bits away. */
  lemma UnmaskExact(m: Mode, umask: Mode, k: nat)
    ensures BitSet(Unmask(m, umask), k) <==> BitSet(m, k) && !BitSet(umask, k)
  {
    hide BitSet, BitAnd;
    WithoutBits(m, umask, k);
  }

  /** 0o777 & !umask */
  function DirDefault(umask: Mode): Mode {
    Unmask(511, umask)
  }

  lemma Powers()
    ensures Pow2(0) == 1 && Pow2(1) == 2 && Pow2(2) == 4 && Pow2(3) == 8 && Pow2(4) == 16 && Pow2(5) == 32
    ensures Pow2(6) == 64 && Pow2(7) == 128 && Pow2(8) == 256 && Pow2(9) == 512 && Pow2(10) == 1024 && Pow2(11) == 2048
  {
    assert Pow2(3) == 8 && Pow2(6) == 64 && Pow2(9) == 512;
  }

  /** A new directory has the bits of 0o777 that are not in the umask. */
  lemma DirDefaultExact(umask: Mode, k: nat)
    requires k < 12
    ensures BitSet(DirDefault(umask), k) <==> k < 9 && !BitSet(umask, k)
  {
    hide Unmask;
    UnmaskExact(511, umask, k);
    Powers();
  }

  /** create_dir_all */
  function MkdirAll(fs: FS, p: Path, umask: Mode): Result<FS, FsError>
    decreases |p|
  {
    if p in fs then if fs[p].DirNode? then Ok(fs) else Err(AlreadyExists)
    else if p == [] then Err(NotFound)
    else
      var above :- MkdirAll(fs, Parent(p), umask);
      Ok(above[p := DirNode(DirDefault(umask))])
  }

  /** It fails only on a file in the way; otherwise exactly the missing prefixes become directories. */
  lemma {:induction false} MkdirAllExact(fs: FS, p: Path, umask: Mode)
    requires WellFormed(fs)
    ensures MkdirAll(fs, p, umask).Ok? <==> !FileAbove(fs, p) && !IsFile(fs, p)
    ensures MkdirAll(fs, p, umask).Ok? ==>
              WellFormed(MkdirAll(fs, p, umask).value) &&
              forall q :: Get(MkdirAll(fs, p, umask).value, q) ==
                    if q <= p && q !in fs then Some(DirNode(DirDefault(umask))) else Get(fs, q)
    decreases |p|
  {
    if p in fs {
      NoFileAboveExisting(fs, p);
      if IsDir(fs, p) {
        forall q | q <= p
          ensures q in fs
        {
          if q != p {
            PrefixesAreDirs(fs, p, q);
          }
        }
      }
    } else {
      MkdirAllExact(fs, Parent(p), umask);
      FileAboveParent(fs, p);
      if MkdirAll(fs, p, umask).Ok? {
        forall q
          ensures Get(MkdirAll(fs, p, umask).value, q) ==
                  if q <= p && q !in fs then Some(DirNode(DirDefault(umask))) else Get(fs, q)
        {
          PrefixCases(q, p);
        }
      }
    }
  }

  lemma PrefixCases(q: Path, p: Path)
    requires p != []
    ensures q <= p <==> q == p || q <= Parent(p)
  {
    if q <= p && q != p {
      assert q == p[..|q|] == Parent(p)[..|q|];
    }
  }

  lemma FileAboveParent(fs: FS, p: Path)
    requires p != []
    ensures FileAbove(fs, p) <==> FileAbove(fs, Parent(p)) || IsFile(fs, Parent(p))
  {
    forall k | 0 <= k < |p| - 1
      ensures p[..k] == Parent(p)[..k]
    {
    }
    if FileAbove(fs, p) {
      var k :| 0 <= k < |p| && IsFile(fs, p[..k]);
      assert k < |p| - 1 ==> IsFile(fs, Parent(p)[..k]);
    }
    if FileAbove(fs, Parent(p)) {
      var k :| 0 <= k < |p| - 1 && IsFile(fs, Parent(p)[..k]);
      assert IsFile(fs, p[..k]);
    }
    if IsFile(fs, Parent(p)) {
      assert IsFile(fs, p[..|p| - 1]);
    }
  }

  // ---------------------------------------------------------------------
  // Writing files
  // ---------------------------------------------------------------------

  /** open(write, create, truncate): an existing file keeps its mode. */
  function OpenTruncate(fs: FS, p: Path, mode: Mode, umask: Mode): Result<FS, FsError> {
    if IsDir(fs, p) then Err(IsADirectory)
    else if p in fs then Ok(fs[p := FileNode(fs[p].mode, [])])
    else if FileAbove(fs, p) then Err(NotADirectory)
    else if p == [] || Parent(p) !in fs then Err(NotFound)
    else Ok(fs[p := FileNode(Unmask(mode, umask), [])])
  }

  function Append(fs: FS, p: Path, bytes: seq<Byte>): FS
    requires IsFile(fs, p)
  {
    fs[p := FileNode(fs[p].mode, fs[p].data + bytes)]
  }

  function WithMode(node: Node, mode: Mode): Node {
    match node
    case FileNode(_, data) => FileNode(mode, data)
    case DirNode(_) => DirNode(mode)
  }

  // ---------------------------------------------------------------------
  // Removing and renaming
  // ---------------------------------------------------------------------

  function RemoveTree(fs: FS, p: Path): FS {
    map q | q in fs && !(p <= q) :: fs[q]
  }

  /** The subtree at `s` re-rooted at `d`, replacing whatever was there. */
  function Rerooted(fs: FS, s: Path, d: Path): FS {
    var moved := set q | q in fs && s <= q :: d + q[|s|..];
    (map q | q in fs && !(s <= q) && !(d <= q) :: fs[q])
    + (map q | q in moved && s + q[|d|..] in fs :: fs[s + q[|d|..]])
  }

  lemma RerootedExact(fs: FS, s: Path, d: Path, q: Path)
    ensures Get(Rerooted(fs, s, d), q) ==
            if d <= q then Get(fs, s + q[|d|..])
            else if s <= q then None
            else Get(fs, q)
  {
    var moved := set q | q in fs && s <= q :: d + q[|s|..];
    if d <= q {
      assert d + q[|d|..] == q;
      assert (s + q[|d|..])[|s|..] == q[|d|..];
      if s + q[|d|..] in fs {
        assert q in moved;
      }
    } else {
      assert q !in moved;
    }
  }

  function Rename(fs: FS, s: Path, d: Path): Result<FS, FsError> {
    if s !in fs then Err(NotFound)
    else if s == d then Ok(fs)
    else if s <= d then Err(InvalidMove)
    else if d <= s then Err(DirectoryNotEmpty)
    else if d == [] || !IsDir(fs, Parent(d)) then Err(NotFound)
    else if d in fs && fs[s].FileNode? && fs[d].DirNode? then Err(IsADirectory)
    else if d in fs && fs[s].DirNode? && fs[d].FileNode? then Err(NotADirectory)
    else if exists q | q in fs :: d < q then Err(DirectoryNotEmpty)
    else Ok(Rerooted(fs, s, d))
  }

  // ---------------------------------------------------------------------
  // The trees a file system holds
  // ---------------------------------------------------------------------

  /** The subtree at `p` is exactly `t`: same paths, same nodes, nothing more. */
  ghost predicate Holds(fs: FS, p: Path, t: Tree) {
    forall rel: Path :: Get(fs, p + rel) == Lookup(t, rel)
  }

  ghost function Below(fs: FS, p: Path): set<Path> {
    set q | q in fs && p <= q
  }

  ghost function ChildNames(fs: FS, p: Path): set<Name> {
    set q | q in fs && |q| == |p| + 1 && p <= q :: q[|p|]
  }

  /** A directory's names in some order. */
  ghost function Listed(names: set<Name>): (s: seq<Name>)
    ensures forall n: Name :: n in s <==> n in names
    ensures forall i, j | 0 <= i < j < |s| :: s[i] != s[j]
  {
    if names == {} then []
    else
      var n :| n in names;
      [n] + Listed(names - {n})
  }

  ghost function TreeAt(fs: FS, p: Path): Tree
    requires p in fs
    decreases |Below(fs, p)|, 1, 0
  {
    match fs[p]
    case FileNode(mode, data) => FileTree(mode, data)
    case DirNode(mode) =>
      ChildrenExist(fs, p);
      DirTree(mode, TreesAt(fs, p, Listed(ChildNames(fs, p))))
  }

  lemma ChildrenExist(fs: FS, p: Path)
    ensures forall n | n in ChildNames(fs, p) :: p + [n] in fs
  {
    forall n | n in ChildNames(fs, p)
      ensures p + [n] in fs
    {
      var q :| q in fs && |q| == |p| + 1 && p <= q && q[|p|] == n;
      assert q == p + [n];
    }
  }

  ghost function TreesAt(fs: FS, p: Path, names: seq<Name>): (cs: seq<Child>)
    requires p in fs && forall n | n in names :: p + [n] in fs
    ensures |cs| == |names|
    decreases |Below(fs, p)|, 0, |names|
  {
    if names == [] then []
    else
      BelowShrinks(fs, p, names[0]);
      [Child(names[0], TreeAt(fs, p + [names[0]]))] + TreesAt(fs, p, names[1..])
  }

  lemma {:induction false} TreesAtEach(fs: FS, p: Path, names: seq<Name>)
    requires p in fs && forall n | n in names :: p + [n] in fs
    ensures forall i | 0 <= i < |names| ::
              p + [names[i]] in fs && TreesAt(fs, p, names)[i] == Child(names[i], TreeAt(fs, p + [names[i]]))
    decreases |names|
  {
    if names != [] {
      TreesAtEach(fs, p, names[1..]);
    }
  }

  lemma BelowShrinks(fs: FS, p: Path, n: Name)
    requires p in fs
    ensures |Below(fs, p + [n])| < |Below(fs, p)|
  {
    var inner, outer := Below(fs, p + [n]), Below(fs, p);
    assert p in outer && p !in inner;
    assert inner <= outer - {p};
    SubsetSize(inner, outer - {p});
  }

  lemma {:induction false} SubsetSize<T>(a: set<T>, b: set<T>)
    requires a <= b
    ensures |a| <= |b|
  {
    if a != {} {
      var x :| x in a;
      SubsetSize(a - {x}, b - {x});
    }
  }

  /** Every existing path of a well-formed file system holds a valid tree. */
  lemma TreeAtHolds(fs: FS, p: Path)
    requires WellFormed(fs) && p in fs
    ensures ValidTree(TreeAt(fs, p)) && Holds(fs, p, TreeAt(fs, p))
  {
    hide TreeAt, ValidTree, WellFormed, Lookup;
    TreeAtValid(fs, p);
    forall rel: Path
      ensures Get(fs, p + rel) == Lookup(TreeAt(fs, p), rel)
    {
      TreeAtLookup(fs, p, rel);
    }
  }

  lemma {:induction false} TreeAtValid(fs: FS, p: Path)
    requires p in fs
    ensures ValidTree(TreeAt(fs, p))
    decreases |Below(fs, p)|
  {
    var t := TreeAt(fs, p);
    if t.DirTree? {
      ChildrenExist(fs, p);
      var names := Listed(ChildNames(fs, p));
      hide Listed, ChildNames, Below;
      TreesAtEach(fs, p, names);
      forall c | c in t.children
        ensures ValidTree(c.tree)
      {
        var i :| 0 <= i < |names| && t.children[i] == c;
        BelowShrinks(fs, p, names[i]);
        TreeAtValid(fs, p + [names[i]]);
      }
    }
  }

  lemma TreeAtChild(fs: FS, p: Path, name: Name)
    requires p in fs && fs[p].DirNode?
    ensures FindChild(TreeAt(fs, p).children, name) ==
            if p + [name] in fs then Some(TreeAt(fs, p + [name])) else None
  {
    var t := TreeAt(fs, p);
    var names := Listed(ChildNames(fs, p));
    ChildrenExist(fs, p);
    TreesAtEach(fs, p, names);
    if p + [name] in fs {
      assert name == (p + [name])[|p|] && name in ChildNames(fs, p);
      var i :| 0 <= i < |names| && names[i] == name;
      FindChildAt(t.children, i);
    } else {
      FindChildIn(t.children, name);
      assert name !in names;
    }
  }

  lemma {:induction false} TreeAtLookup(fs: FS, p: Path, rel: Path)
    requires WellFormed(fs) && p in fs
    ensures Get(fs, p + rel) == Lookup(TreeAt(fs, p), rel)
    decreases |rel|
  {
    var at := p + rel;
    if rel == [] {
      assert at == p;
    } else if fs[p].FileNode? {
      if at in fs {
        PrefixesAreDirs(fs, at, p);
      }
    } else {
      TreeAtChild(fs, p, rel[0]);
      var child := p + [rel[0]];
      assert at == child + rel[1..];
      if child in fs {
        TreeAtLookup(fs, child, rel[1..]);
      } else if at in fs && at != child {
        PrefixesAreDirs(fs, at, child);
      }
    }
  }

  // ---------------------------------------------------------------------
  // The file system as a program sees it
  // ---------------------------------------------------------------------

  /** Mutable file-system state. */
  class Disk {
    var fs: FS
    const umask: Mode

    constructor (fs: FS, umask: Mode)
      ensures this.fs == fs && this.umask == umask
    {
      this.fs := fs;
      this.umask := umask;
    }

    method CreateDirAll(p: Path) returns (r: Result<(), FsError>)
      modifies this
      ensures match MkdirAll(old(fs), p, umask)
              case Ok(made) => r == Ok(()) && fs == made
              case Err(e) => r == Err(e) && fs == old(fs)
    {
      var made := MkdirAll(fs, p, umask);
      if made.Err? {
        return Err(made.error);
      }
      fs := made.value;
      r := Ok(());
    }

    method OpenForWrite(p: Path, mode: Mode) returns (r: Result<(), FsError>)
      modifies this
      ensures match OpenTruncate(old(fs), p, mode, umask)
              case Ok(after) => r == Ok(()) && fs == after
              case Err(e) => r == Err(e) && fs == old(fs)
    {
      var after := OpenTruncate(fs, p, mode, umask);
      if after.Err? {
        return Err(after.error);
      }
      fs := after.value;
      r := Ok(());
    }

    method WriteAll(p: Path, bytes: seq<Byte>)
      requires IsFile(fs, p)
      modifies this
      ensures fs == Append(old(fs), p, bytes)
    {
      fs := Append(fs, p, bytes);
    }

    method SetPermissions(p: Path, mode: Mode)
      requires p in fs
      modifies this
      ensures fs == old(fs)[p := WithMode(old(fs)[p], mode)]
    {
      fs := fs[p := WithMode(fs[p], mode)];
    }

    /** remove_dir_all or remove_file; the root directory only loses what is in it. */
    method Remove(p: Path) returns (r: Result<(), FsError>)
      modifies this
      ensures p == [] ==> r == Err(Busy) && fs == map q | q in old(fs) && q == [] :: old(fs)[q]
      ensures p != [] ==> r == Ok(()) && fs == RemoveTree(old(fs), p)
    {
      if p == [] {
        fs := map q | q in fs && q == [] :: fs[q];
        return Err(Busy);
      }
      fs := RemoveTree(fs, p);
      r := Ok(());
    }

    method RenameTo(s: Path, d: Path) returns (r: Result<(), FsError>)
      modifies this
      ensures match Rename(old(fs), s, d)
              case Ok(after) => r == Ok(()) && fs == after
              case Err(e) => r == Err(e) && fs == old(fs)
    {
      var after := Rename(fs, s, d);
      if after.Err? {
        return Err(after.error);
      }
      fs := after.value;
      r := Ok(());
    }
  }
}
