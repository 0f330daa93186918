/** The daemon's fs.move and fs.rm on a well-formed file system. */
module FileOps {
  import opened Base
  import opened Paths
  import opened Trees
  import opened FileSystem

  datatype OpError = OnFs(fs: FsError) | PreconditionFailed

  // ---------------------------------------------------------------------
  // Removing
  // ---------------------------------------------------------------------

  /** A file system with nothing left but its root directory. */
  function Emptied(fs: FS): FS {
    map q | q in fs && q == [] :: fs[q]
  }

  /** remove_dir_all or remove_file of an existing path; the root directory itself cannot go. */
  function RemoveExisting(fs: FS, p: Path): (FS, Result<(), OpError>) {
    if p == [] then (Emptied(fs), Err(OnFs(Busy))) else (RemoveTree(fs, p), Ok(()))
  }

  predicate HasBelow(fs: FS, p: Path) {
    exists q | q in fs :: p < q
  }

  /** The options of a removal request. */
  datatype RmFlags = RmFlags(recursive: bool, force: bool, ifExists: bool)

  /** What a client that cleans up after itself asks for. */
  const CLEANUP := RmFlags(true, true, true)

  /** handle_fs_rm: an absent path is an error unless it may be absent, a directory goes with what is in it only if asked. */
  function Rm(fs: FS, p: Path, flags: RmFlags): (FS, Result<bool, OpError>) {
    match Stat(fs, p)
    case Err(e) => (fs, Err(OnFs(e)))
    case Ok(None) => (fs, if flags.force || flags.ifExists then Ok(false) else Err(OnFs(NotFound)))
    case Ok(Some(node)) =>
      if node.DirNode? && !flags.recursive && p == [] then (fs, Err(OnFs(Busy)))
      else if node.DirNode? && !flags.recursive && HasBelow(fs, p) then (fs, Err(OnFs(DirectoryNotEmpty)))
      else
        var (after, r) := RemoveExisting(fs, p);
        if r.Err? then (after, Err(r.error)) else (after, Ok(true))
  }

  /** The same on the disk. */
  method FsRm(disk: Disk, p: Path, flags: RmFlags) returns (r: Result<bool, OpError>)
    modifies disk
    ensures (disk.fs, r) == Rm(old(disk.fs), p, flags)
  {
    var found := Stat(disk.fs, p);
    if found.Err? {
      return Err(OnFs(found.error));
    }
    if found.value.None? {
      return if flags.force || flags.ifExists then Ok(false) else Err(OnFs(NotFound));
    }
    if found.value.value.DirNode? && !flags.recursive {
      if p == [] {
        return Err(OnFs(Busy));
      }
      if HasBelow(disk.fs, p) {
        return Err(OnFs(DirectoryNotEmpty));
      }
    }
    var removed := disk.Remove(p);
    if removed.Err? {
      return Err(OnFs(removed.error));
    }
    r := Ok(true);
  }

  lemma RemoveTreeWellFormed(fs: FS, p: Path)
    requires WellFormed(fs) && p != []
    ensures WellFormed(RemoveTree(fs, p))
  {
    var after := RemoveTree(fs, p);
    forall q | q in after && q != []
      ensures Parent(q) in after && after[Parent(q)].DirNode?
    {
      PrefixCases(p, q);
    }
  }

  lemma NothingBelowAbsent(fs: FS, p: Path)
    requires WellFormed(fs) && p !in fs
    ensures forall q | p <= q :: q !in fs
  {
    forall q | p <= q
      ensures q !in fs
    {
      if q in fs && q != p {
        PrefixesAreDirs(fs, q, p);
      }
    }
  }

  /**
   A removal succeeds on what exists, short of the root directory and of a directory that still holds something and
   was not to be removed recursively, and on what may be absent and has no file above it. Then nothing is left at or
   below the path and all else is as before. A failed one changes nothing - except that removing the root directory
   recursively empties it before it fails.
   */
  lemma RmExact(fs: FS, p: Path, flags: RmFlags)
    requires WellFormed(fs)
    ensures var (after, r) := Rm(fs, p, flags);
            (r.Ok? <==> if p in fs then p != [] && (IsFile(fs, p) || flags.recursive || !(exists q | q in fs :: p < q))
                        else !FileAbove(fs, p) && (flags.force || flags.ifExists)) &&
            (r.Ok? ==> r.value == (p in fs)) && WellFormed(after) &&
            forall q :: Get(after, q) == if r.Ok? && p <= q then None
                                         else if r.Err? && p == [] && flags.recursive && q != [] then None
                                         else Get(fs, q)
  {
    if p !in fs {
      NothingBelowAbsent(fs, p);
    } else {
      NoFileAboveExisting(fs, p);
      if p != [] {
        RemoveTreeWellFormed(fs, p);
      }
    }
  }

  // ---------------------------------------------------------------------
  // Moving
  // ---------------------------------------------------------------------

  /** handle_fs_move: with overwrite, the destination is removed before the rename is tried. */
  function Move(fs: FS, source: Path, destination: Path, overwrite: bool): (FS, Result<bool, OpError>) {
    if source !in fs then (fs, Err(OnFs(NotFound)))
    else
      match Stat(fs, destination)
      case Err(e) => (fs, Err(OnFs(e)))
      case Ok(found) =>
        if found.Some? && !overwrite then (fs, Err(PreconditionFailed))
        else
          var (cleared, removing) := if found.Some? then RemoveExisting(fs, destination) else (fs, Ok(()));
          if removing.Err? then (cleared, Err(removing.error))
          else
            match Rename(cleared, source, destination)
            case Err(e) => (cleared, Err(OnFs(e)))
            case Ok(moved) => (moved, Ok(found.Some?))
  }

  /** The same, step by step on the disk. */
  method FsMove(disk: Disk, source: Path, destination: Path, overwrite: bool) returns (r: Result<bool, OpError>)
    modifies disk
    ensures (disk.fs, r) == Move(old(disk.fs), source, destination, overwrite)
  {
    if source !in disk.fs {
      return Err(OnFs(NotFound));
    }
    var found := Stat(disk.fs, destination);
    if found.Err? {
      return Err(OnFs(found.error));
    }
    if found.value.Some? && !overwrite {
      return Err(PreconditionFailed);
    }
    if found.value.Some? {
      var removed := disk.Remove(destination);
      if removed.Err? {
        return Err(OnFs(removed.error));
      }
    }
    var renamed := disk.RenameTo(source, destination);
    if renamed.Err? {
      return Err(OnFs(renamed.error));
    }
    r := Ok(found.value.Some?);
  }

  /** The move can be carried out: neither path lies at or below the other, and the destination has a directory to go to. */
  ghost predicate MoveFeasible(fs: FS, source: Path, destination: Path) {
    source in fs && !(source <= destination) && !(destination <= source) &&
    destination != [] && IsDir(fs, Parent(destination))
  }

  /** The source's subtree stands at the destination, nothing stands at the source, all else is as before. */
  ghost predicate Relocated(fs: FS, after: FS, source: Path, destination: Path) {
    forall q :: Get(after, q) ==
                if destination <= q then Get(fs, source + q[|destination|..])
                else if source <= q then None
                else Get(fs, q)
  }

  lemma RerootedWellFormed(fs: FS, source: Path, destination: Path)
    requires WellFormed(fs) && MoveFeasible(fs, source, destination)
    ensures WellFormed(Rerooted(fs, source, destination))
  {
    var after := Rerooted(fs, source, destination);
    RerootedExact(fs, source, destination, []);
    assert Get(after, []) == Get(fs, []);
    forall q | q in after && q != []
      ensures Parent(q) in after && after[Parent(q)].DirNode?
    {
      assert Get(after, q).Some?;
      RerootedParent(fs, source, destination, q);
    }
  }

  lemma RerootedParent(fs: FS, source: Path, destination: Path, q: Path)
    requires WellFormed(fs) && MoveFeasible(fs, source, destination)
    requires q != [] && Get(Rerooted(fs, source, destination), q).Some?
    ensures IsDir(Rerooted(fs, source, destination), Parent(q))
  {
    hide Rerooted;
    var after := Rerooted(fs, source, destination);
    RerootedExact(fs, source, destination, q);
    RerootedExact(fs, source, destination, Parent(q));
    PrefixCases(source, q);
    PrefixCases(destination, q);
    if q == destination {
      assert Get(after, Parent(q)) == Get(fs, Parent(q));
    } else if destination <= q {
      MovedParent(fs, source, destination, q);
    } else {
      assert Get(after, Parent(q)) == Get(fs, Parent(q));
    }
  }

  lemma MovedParent(fs: FS, source: Path, destination: Path, q: Path)
    requires WellFormed(fs) && destination < q && Get(fs, source + q[|destination|..]).Some?
    ensures IsDir(fs, source + Parent(q)[|destination|..])
  {
    var from := source + q[|destination|..];
    assert Parent(from) == source + Parent(q)[|destination|..];
    assert from in fs && from != [];
  }

  /**
   A move succeeds exactly when it is feasible and does not need a forbidden overwrite; then the source's
   subtree stands at the destination, nothing stands at the source, and all else is as before.
   */
  lemma MoveExact(fs: FS, source: Path, destination: Path, overwrite: bool)
    requires WellFormed(fs)
    ensures var (after, r) := Move(fs, source, destination, overwrite);
            (r.Ok? <==> MoveFeasible(fs, source, destination) && (destination in fs ==> overwrite)) &&
            (r.Ok? ==> WellFormed(after) && Relocated(fs, after, source, destination))
  {
    if MoveFeasible(fs, source, destination) {
      NoFileAboveDestination(fs, destination);
      if destination in fs ==> overwrite {
        RerootedWellFormed(fs, source, destination);
        MoveIsRerooting(fs, source, destination, overwrite);
        forall q
          ensures Get(Rerooted(fs, source, destination), q) ==
                  if destination <= q then Get(fs, source + q[|destination|..])
                  else if source <= q then None
                  else Get(fs, q)
        {
          RerootedExact(fs, source, destination, q);
        }
      }
    } else {
      InfeasibleMoveFails(fs, source, destination, overwrite);
    }
  }

  lemma NoFileAboveDestination(fs: FS, destination: Path)
    requires WellFormed(fs) && destination != [] && IsDir(fs, Parent(destination))
    ensures !FileAbove(fs, destination)
  {
    NoFileAboveExisting(fs, Parent(destination));
    FileAboveParent(fs, destination);
  }

  lemma MoveIsRerooting(fs: FS, source: Path, destination: Path, overwrite: bool)
    requires WellFormed(fs) && MoveFeasible(fs, source, destination) && (destination in fs ==> overwrite)
    ensures Move(fs, source, destination, overwrite) == (Rerooted(fs, source, destination), Ok(destination in fs))
  {
    NoFileAboveDestination(fs, destination);
    var cleared := if destination in fs then RemoveTree(fs, destination) else fs;
    assert source in cleared && IsDir(cleared, Parent(destination));
    forall q | q in cleared
      ensures !(destination <= q)
    {
      if destination !in fs && destination <= q && q != destination {
        PrefixesAreDirs(fs, q, destination);
      }
    }
    ClearedReroots(fs, cleared, source, destination);
  }

  lemma ClearedReroots(fs: FS, cleared: FS, source: Path, destination: Path)
    requires !(source <= destination) && !(destination <= source)
    requires forall q :: Get(cleared, q) == if destination <= q then None else Get(fs, q)
    ensures Rerooted(cleared, source, destination) == Rerooted(fs, source, destination)
  {
    var a, b := Rerooted(cleared, source, destination), Rerooted(fs, source, destination);
    forall q
      ensures Get(a, q) == Get(b, q)
    {
      RerootedExact(cleared, source, destination, q);
      RerootedExact(fs, source, destination, q);
      if destination <= q {
        Apart(source, destination, source + q[|destination|..]);
      }
    }
    SameNodes(a, b);
  }

  lemma Apart(p: Path, q: Path, whole: Path)
    requires p <= whole && !(p <= q) && !(q <= p)
    ensures !(q <= whole)
  {
    if |q| <= |whole| {
      var w := whole[..|q|];
      if |q| <= |p| {
        assert w == p[..|q|];
      } else {
        assert w[..|p|] == p;
      }
    }
  }

  /** Whatever a move does, what is left is a well-formed file system. */
  lemma MoveKeepsWellFormed(fs: FS, source: Path, destination: Path, overwrite: bool)
    requires WellFormed(fs)
    ensures WellFormed(Move(fs, source, destination, overwrite).0)
  {
    MoveExact(fs, source, destination, overwrite);
    if destination != [] {
      RemoveTreeWellFormed(fs, destination);
    }
  }

  /** An infeasible move fails; if it was to overwrite something, that something is gone all the same. */
  lemma InfeasibleMoveFails(fs: FS, source: Path, destination: Path, overwrite: bool)
    requires WellFormed(fs) && !MoveFeasible(fs, source, destination)
    ensures Move(fs, source, destination, overwrite).1.Err?
  {
    if source in fs && destination in fs && destination != [] {
      NoFileAboveExisting(fs, destination);
      FileAboveParent(fs, destination);
      assert Parent(destination) in fs;
      var cleared := RemoveTree(fs, destination);
      if destination <= source {
        assert source !in cleared;
      }
    } else if source in fs && destination !in fs {
      if destination <= source && source != destination {
        PrefixesAreDirs(fs, source, destination);
      }
    }
  }

  /** What stands in the way of replacing the destination is the source itself, or lies within it, or holds it. */
  ghost predicate DestroysItself(fs: FS, source: Path, destination: Path, overwrite: bool) {
    overwrite && source in fs && destination in fs && (source <= destination || destination <= source) && fs.Keys != {[]}
  }

  /**
   A move fails and has changed something exactly when it is to overwrite an existing destination that is the source
   itself, lies in it or holds it. Then what is lost is everything at and below the destination, and of the root
   directory everything in it.
   */
  lemma MoveFailsWithLossIff(fs: FS, source: Path, destination: Path, overwrite: bool)
    requires WellFormed(fs)
    ensures var (after, r) := Move(fs, source, destination, overwrite);
            (r.Err? && after != fs <==> DestroysItself(fs, source, destination, overwrite)) &&
            (DestroysItself(fs, source, destination, overwrite) ==>
               after == if destination == [] then Emptied(fs) else RemoveTree(fs, destination))
  {
    MoveExact(fs, source, destination, overwrite);
    if source in fs && destination in fs && overwrite {
      if destination == [] {
        EmptiedIff(fs);
      } else {
        assert destination !in RemoveTree(fs, destination);
        assert destination in fs.Keys && destination !in {[]};
        assert Parent(destination) in fs;
      }
    }
  }

  lemma EmptiedIff(fs: FS)
    requires WellFormed(fs)
    ensures Emptied(fs) == fs <==> fs.Keys == {[]}
  {
    assert [] in fs;
    if Emptied(fs) == fs {
      forall q | q in fs
        ensures q == []
      {
        assert q in Emptied(fs);
      }
    }
    if fs.Keys == {[]} {
      forall q | q in fs
        ensures q == []
      {
        assert q in fs.Keys;
      }
    }
  }

  /** Moving a path onto itself with overwrite asked for fails and loses the tree. */
  lemma SelfMoveLosesTree(fs: FS, p: Path)
    requires WellFormed(fs) && p in fs && p != []
    ensures Move(fs, p, p, true) == (RemoveTree(fs, p), Err(OnFs(NotFound)))
  {
  }
}
