/** The daemon's guarded fs.write: direct or atomic, with every intermediate state and every failure. */
module FsWrite {
  import opened Base
  import opened Frames
  import opened Paths
  import opened Trees
  import opened FileSystem
  import opened Overlay
  import opened Listing
  import opened States
  import opened Staging

  const MAX_BYTES: nat := 4 * 1024 * 1024
  /** 0o666, what open asks for when no mode is given. */
  const DEFAULT_FILE_MODE: Mode := 438

  datatype WriteRequest = WriteRequest(
    bytes: seq<Byte>, mode: Option<nat>, createParent: bool, atomic: bool, ifMissing: bool, ifSha256: Option<string>)

  datatype WriteError = TooLarge | OnFs(error: FsError) | PathIsDirectory | PreconditionFailed | Faulted

  datatype Written = Written(bytesWritten: nat, mode: Option<Mode>, sha256: string, changed: bool)

  /** Where an otherwise possible write fails, if it does; `BeforePiece(k)` with the first `k` pieces written. */
  datatype Fault = NoFault | AtOpen | BeforePiece(k: nat) | AtPermissions | AtRename

  function OpenMode(mode: Option<nat>): Mode {
    match mode case Some(m) => NormalizeMode(m) case None => DEFAULT_FILE_MODE
  }

  /** The bits of 0o666 that are not in the umask. */
  ghost predicate IsNewFileMode(mode: Mode, umask: Mode) {
    forall k: nat | k < 12 :: BitSet(mode, k) <==> k in {1, 2, 4, 5, 7, 8} && !BitSet(umask, k)
  }

  /**
   The mode a written file is left with: the permission bits asked for, or 0o644 if those are none; if no mode was
   asked for, that of the file written to, or of a new file.
   */
  ghost predicate LeavesMode(mode: Mode, asked: Option<nat>, before: Option<Mode>, umask: Mode) {
    match asked
    case Some(m) => mode == if m % 4096 == 0 then 420 else m % 4096
    case None => match before case Some(kept) => mode == kept case None => IsNewFileMode(mode, umask)
  }

  function ModeAt(fs: FS, p: Path): Option<Mode> {
    if p in fs then Some(fs[p].mode) else None
  }

  lemma NewFileMode(umask: Mode)
    ensures IsNewFileMode(Unmask(DEFAULT_FILE_MODE, umask), umask)
  {
    hide Unmask, BitSet;
    forall k: nat | k < 12
      ensures BitSet(Unmask(DEFAULT_FILE_MODE, umask), k) <==> k in {1, 2, 4, 5, 7, 8} && !BitSet(umask, k)
    {
      UnmaskExact(DEFAULT_FILE_MODE, umask, k);
      DefaultBits(k);
    }
  }

  lemma DefaultBits(k: nat)
    requires k < 12
    ensures BitSet(DEFAULT_FILE_MODE, k) <==> k in {1, 2, 4, 5, 7, 8}
  {
    Powers();
  }

  function ContentAt(fs: FS, p: Path): Option<seq<Byte>> {
    if IsFile(fs, p) then Some(fs[p].data) else None
  }

  ghost predicate SameElsewhere(fs: FS, s: FS, p: Path) {
    forall q | q != p :: Get(s, q) == Get(fs, q)
  }

  // ---------------------------------------------------------------------
  // Writing a file piece by piece
  // ---------------------------------------------------------------------

  /** The file at `p` holds the first `k` pieces, and nothing else differs from `fs`. */
  ghost predicate WrittenSoFar(fs: FS, s: FS, p: Path, pieces: seq<seq<Byte>>, k: nat) {
    k <= |pieces| && IsFile(s, p) && s[p].data == Flatten(pieces[..k]) && SameElsewhere(fs, s, p)
  }

  ghost predicate SomeWritten(fs: FS, s: FS, p: Path, pieces: seq<seq<Byte>>) {
    exists k | 0 <= k <= |pieces| :: WrittenSoFar(fs, s, p, pieces, k)
  }

  /** Every state along the way shows some of the pieces at `p` and nothing else changed. */
  ghost predicate Growing(fs: FS, trace: seq<FS>, p: Path, pieces: seq<seq<Byte>>) {
    forall s | s in trace :: SomeWritten(fs, s, p, pieces)
  }

  lemma NextPiece(fs: FS, s: FS, p: Path, pieces: seq<seq<Byte>>, k: nat)
    requires k < |pieces| && WrittenSoFar(fs, s, p, pieces, k)
    ensures WrittenSoFar(fs, Append(s, p, pieces[k]), p, pieces, k + 1)
  {
    assert pieces[..k + 1] == pieces[..k] + [pieces[k]];
    FlattenAppend(pieces[..k], [pieces[k]]);
    var one: seq<seq<Byte>> := [pieces[k]];
    assert one[1..] == [];
    assert Flatten(one) == pieces[k];
  }

  /** write_all: the pieces in order, up to the fault. */
  method WritePieces(disk: Disk, p: Path, pieces: seq<seq<Byte>>, fault: Fault, ghost fs: FS) returns (ok: bool, ghost trace: seq<FS>)
    requires WrittenSoFar(fs, disk.fs, p, pieces, 0)
    modifies disk
    ensures ok <==> !(fault.BeforePiece? && fault.k < |pieces|)
    ensures WrittenSoFar(fs, disk.fs, p, pieces, if ok then |pieces| else fault.k)
    ensures disk.fs[p].mode == old(disk.fs[p].mode)
    ensures Growing(fs, trace, p, pieces)
  {
    trace := [];
    for i := 0 to |pieces|
      invariant WrittenSoFar(fs, disk.fs, p, pieces, i) && disk.fs[p].mode == old(disk.fs[p].mode)
      invariant Growing(fs, trace, p, pieces)
      invariant fault.BeforePiece? ==> i <= fault.k
    {
      if fault == BeforePiece(i) {
        return false, trace;
      }
      NextPiece(fs, disk.fs, p, pieces, i);
      disk.WriteAll(p, pieces[i]);
      assert SomeWritten(fs, disk.fs, p, pieces);
      trace := trace + [disk.fs];
    }
    ok := true;
  }

  /** set_permissions, if a mode was given. */
  method SetMode(disk: Disk, p: Path, mode: Option<nat>, pieces: seq<seq<Byte>>, fault: Fault, ghost fs: FS) returns (ok: bool)
    requires WrittenSoFar(fs, disk.fs, p, pieces, |pieces|)
    modifies disk
    ensures ok <==> !(mode.Some? && fault == AtPermissions)
    ensures WrittenSoFar(fs, disk.fs, p, pieces, |pieces|)
    ensures ok ==> mode.Some? ==> disk.fs[p].mode == NormalizeMode(mode.value)
    ensures mode.None? ==> disk.fs == old(disk.fs)
  {
    if mode.Some? {
      if fault == AtPermissions {
        return false;
      }
      disk.SetPermissions(p, NormalizeMode(mode.value));
    }
    ok := true;
  }

  // ---------------------------------------------------------------------
  // The direct write
  // ---------------------------------------------------------------------

  /** Whether the faults let a write through. */
  predicate Unfaulted(fault: Fault, pieces: seq<seq<Byte>>, mode: Option<nat>, atomic: bool) {
    match fault
    case NoFault => true
    case AtOpen => false
    case BeforePiece(k) => k >= |pieces|
    case AtPermissions => mode.None?
    case AtRename => !atomic
  }

  /**
   write_direct_file: on success the path holds the bytes; on the way, and after a failure past opening, it may show
   any beginning of them.
   */
  method WriteDirect(disk: Disk, p: Path, mode: Option<nat>, pieces: seq<seq<Byte>>, fault: Fault)
    returns (r: Result<(), WriteError>, ghost trace: seq<FS>)
    requires WellFormed(disk.fs) && p != [] && !IsDir(disk.fs, p)
    modifies disk
    ensures r.Ok? <==> IsDir(old(disk.fs), Parent(p)) && Unfaulted(fault, pieces, mode, false)
    ensures r.Ok? ==> WrittenSoFar(old(disk.fs), disk.fs, p, pieces, |pieces|)
    ensures r.Ok? ==> LeavesMode(disk.fs[p].mode, mode, ModeAt(old(disk.fs), p), disk.umask)
    ensures r.Err? ==> disk.fs == old(disk.fs) || SomeWritten(old(disk.fs), disk.fs, p, pieces)
    ensures Growing(old(disk.fs), trace, p, pieces)
  {
    ghost var fs := disk.fs;
    NewFileMode(disk.umask);
    trace := [];
    if fault == AtOpen {
      return Err(Faulted), [];
    }
    OpenableIff(disk.fs, p, OpenMode(mode), disk.umask);
    var opening := disk.OpenForWrite(p, OpenMode(mode));
    if opening.Err? {
      return Err(OnFs(opening.error)), [];
    }
    OpenedEmpty(fs, disk.fs, p, pieces, OpenMode(mode), disk.umask);
    assert SomeWritten(fs, disk.fs, p, pieces);
    ghost var afterOpening := [disk.fs];
    var ok;
    ok, trace := WritePieces(disk, p, pieces, fault, fs);
    trace := afterOpening + trace;
    if !ok {
      return Err(Faulted), trace;
    }
    ok := SetMode(disk, p, mode, pieces, fault, fs);
    assert SomeWritten(fs, disk.fs, p, pieces);
    trace := trace + [disk.fs];
    r := if ok then Ok(()) else Err(Faulted);
  }

  lemma OpenableIff(fs: FS, p: Path, mode: Mode, umask: Mode)
    requires WellFormed(fs) && p != [] && !IsDir(fs, p)
    ensures OpenTruncate(fs, p, mode, umask).Ok? <==> IsDir(fs, Parent(p))
  {
    FileAboveParent(fs, p);
    if IsDir(fs, Parent(p)) {
      NoFileAboveExisting(fs, Parent(p));
    }
  }

  lemma OpenedEmpty(fs: FS, s: FS, p: Path, pieces: seq<seq<Byte>>, mode: Mode, umask: Mode)
    requires OpenTruncate(fs, p, mode, umask) == Ok(s)
    ensures WrittenSoFar(fs, s, p, pieces, 0)
  {
    assert pieces[..0] == [];
  }

  // ---------------------------------------------------------------------
  // The atomic write
  // ---------------------------------------------------------------------

  /** atomic_temp_path: a hidden sibling. */
  function AtomicTempPath(p: Path, nonce: nat): Path
    requires p != []
  {
    TempNameValid(p[|p| - 1], nonce);
    Parent(p) + ["." + p[|p| - 1] + ".rsdb-tmp-" + Decimal(nonce)]
  }

  lemma TempNameValid(name: Name, nonce: nat)
    ensures ValidName("." + name + ".rsdb-tmp-" + Decimal(nonce))
  {
    assert '/' !in DIGITS;
  }

  lemma TempIsSibling(p: Path, nonce: nat)
    requires p != []
    ensures var temp := AtomicTempPath(p, nonce);
            temp != [] && Parent(temp) == Parent(p) && temp != p && !(temp <= p) && !(p <= temp)
  {
    var temp, name := AtomicTempPath(p, nonce), p[|p| - 1];
    assert |temp[|temp| - 1]| > |name|;
    SiblingsApart(p, temp);
  }

  /** A state in which `p` is as in `fs`, or the whole of the new file; elsewhere, but for `temp`, nothing differs. */
  ghost predicate OldOrNew(fs: FS, s: FS, p: Path, temp: Path, bytes: seq<Byte>) {
    (Get(s, p) == Get(fs, p) || ContentAt(s, p) == Some(bytes)) &&
    forall q | q != p && q != temp :: Get(s, q) == Get(fs, q)
  }

  ghost predicate AllOldOrNew(fs: FS, trace: seq<FS>, p: Path, temp: Path, bytes: seq<Byte>) {
    forall s | s in trace :: OldOrNew(fs, s, p, temp, bytes)
  }

  lemma TempStatesAreOld(fs: FS, trace: seq<FS>, p: Path, temp: Path, pieces: seq<seq<Byte>>, bytes: seq<Byte>)
    requires p != temp && Growing(fs, trace, temp, pieces)
    ensures AllOldOrNew(fs, trace, p, temp, bytes)
  {
    forall s | s in trace
      ensures OldOrNew(fs, s, p, temp, bytes)
    {
      assert SomeWritten(fs, s, temp, pieces);
      var k :| 0 <= k <= |pieces| && WrittenSoFar(fs, s, temp, pieces, k);
    }
  }

  /** The rename at the end puts the finished file in place in one step. */
  lemma RenameCommits(fs: FS, s: FS, p: Path, temp: Path, pieces: seq<seq<Byte>>)
    requires WellFormed(fs) && p != [] && temp != [] && Parent(temp) == Parent(p) && temp != p && temp !in fs
    requires !IsDir(fs, p) && IsDir(fs, Parent(p)) && WrittenSoFar(fs, s, temp, pieces, |pieces|)
    ensures Rename(s, temp, p) == Ok(Rerooted(s, temp, p))
    ensures WrittenSoFar(fs, Rerooted(s, temp, p), p, pieces, |pieces|) && temp !in Rerooted(s, temp, p)
  {
    hide Rerooted, FileAbove;
    SiblingsApart(p, temp);
    NothingUnder(fs, s, p, temp);
    NothingUnder(fs, s, temp, temp);
    assert Get(s, Parent(p)) == Get(fs, Parent(p)) && Get(s, p) == Get(fs, p);
    forall q
      ensures Get(Rerooted(s, temp, p), q) == if q == p then Get(s, temp) else if q == temp then None else Get(fs, q)
    {
      MovedIntoPlace(fs, s, p, temp, q);
    }
    Committed(fs, s, Rerooted(s, temp, p), p, temp, pieces);
  }

  lemma MovedIntoPlace(fs: FS, s: FS, p: Path, temp: Path, q: Path)
    requires !(temp <= p) && !(p <= temp) && SameElsewhere(fs, s, temp)
    requires forall q | p < q || temp < q :: q !in s && q !in fs
    ensures Get(Rerooted(s, temp, p), q) == if q == p then Get(s, temp) else if q == temp then None else Get(fs, q)
  {
    hide Rerooted;
    RerootedExact(s, temp, p, q);
    if p < q {
      assert temp < temp + q[|p|..];
    } else if q == p {
      assert temp + q[|p|..] == temp;
    } else if temp < q {
      assert q !in fs;
    }
  }

  lemma Committed(fs: FS, s: FS, after: FS, p: Path, temp: Path, pieces: seq<seq<Byte>>)
    requires p != temp && WrittenSoFar(fs, s, temp, pieces, |pieces|) && temp !in fs
    requires forall q :: Get(after, q) == if q == p then Get(s, temp) else if q == temp then None else Get(fs, q)
    ensures WrittenSoFar(fs, after, p, pieces, |pieces|) && temp !in after
  {
    assert Get(after, p) == Get(s, temp);
    assert Get(after, temp) == None;
  }

  /** Below a file, or an absent path, there is nothing, also while the temporary file is being written. */
  lemma NothingUnder(fs: FS, s: FS, p: Path, temp: Path)
    requires WellFormed(fs) && SameElsewhere(fs, s, temp) && !(p < temp)
    ensures !IsDir(fs, p) ==> forall q | p < q :: q !in s && q !in fs
  {
    forall q | p < q && !IsDir(fs, p)
      ensures q !in s && q !in fs
    {
      assert q != temp;
      assert Get(s, q) == Get(fs, q);
      if q in fs {
        PrefixesAreDirs(fs, q, p);
      }
    }
  }

  /**
   write_atomic_file: every state on the way shows the old file or the whole new one. On success the new one stands
   there and the temporary file is gone; after a failure the old one still stands, and if the clean-up works nothing
   at all has changed - unless something else already stood at the temporary path: then the clean-up removes that.
   */
  method WriteAtomic(disk: Disk, p: Path, temp: Path, mode: Option<nat>, pieces: seq<seq<Byte>>, fault: Fault, cleanupWorks: bool)
    returns (r: Result<(), WriteError>, ghost trace: seq<FS>)
    requires WellFormed(disk.fs) && p != [] && !IsDir(disk.fs, p)
    requires temp != [] && Parent(temp) == Parent(p) && temp != p
    modifies disk
    ensures r.Ok? <==> temp !in old(disk.fs) && IsDir(old(disk.fs), Parent(p)) && Unfaulted(fault, pieces, mode, true)
    ensures r.Ok? ==> WrittenSoFar(old(disk.fs), disk.fs, p, pieces, |pieces|) && temp !in disk.fs
    ensures r.Ok? ==> LeavesMode(disk.fs[p].mode, mode, None, disk.umask)
    ensures r.Err? ==> SameElsewhere(old(disk.fs), disk.fs, temp)
    ensures r.Err? && cleanupWorks ==>
              disk.fs == if IsFile(old(disk.fs), temp) then RemoveTree(old(disk.fs), temp) else old(disk.fs)
    ensures AllOldOrNew(old(disk.fs), trace, p, temp, Flatten(pieces))
  {
    ghost var fs := disk.fs;
    SiblingsApart(p, temp);
    if temp in disk.fs {
      NothingUnder(fs, fs, temp, temp);
      if cleanupWorks && IsFile(disk.fs, temp) {
        var _ := disk.Remove(temp);
      }
      return Err(OnFs(AlreadyExists)), [disk.fs];
    }
    r, trace := FillTemp(disk, temp, mode, pieces, fault);
    TempStatesAreOld(fs, trace, p, temp, pieces, Flatten(pieces));
    if r.Ok? {
      RenameCommits(fs, disk.fs, p, temp, pieces);
      if fault == AtRename {
        r := Err(Faulted);
      } else {
        r := CommitTemp(disk, p, temp, pieces, fs);
        trace := trace + [disk.fs];
        return;
      }
    }
    RemoveTemp(disk, temp, cleanupWorks, fs);
    trace := trace + [disk.fs];
  }

  method CommitTemp(disk: Disk, p: Path, temp: Path, pieces: seq<seq<Byte>>, ghost fs: FS) returns (r: Result<(), WriteError>)
    requires p != [] && temp != p && Rename(disk.fs, temp, p) == Ok(Rerooted(disk.fs, temp, p))
    requires WrittenSoFar(fs, Rerooted(disk.fs, temp, p), p, pieces, |pieces|) && temp !in Rerooted(disk.fs, temp, p)
    modifies disk
    ensures r == Ok(()) && temp !in disk.fs && WrittenSoFar(fs, disk.fs, p, pieces, |pieces|)
    ensures OldOrNew(fs, disk.fs, p, temp, Flatten(pieces))
    ensures Get(disk.fs, p) == Get(old(disk.fs), temp)
  {
    RerootedExact(disk.fs, temp, p, p);
    assert temp + p[|p|..] == temp;
    assert pieces[..|pieces|] == pieces;
    var renamed := disk.RenameTo(temp, p);
    r := Ok(());
  }

  /** Opening the temporary file - create_new, which a fresh path never refuses - filling it and setting its mode. */
  method FillTemp(disk: Disk, temp: Path, mode: Option<nat>, pieces: seq<seq<Byte>>, fault: Fault)
    returns (r: Result<(), WriteError>, ghost trace: seq<FS>)
    requires WellFormed(disk.fs) && temp != [] && temp !in disk.fs
    modifies disk
    ensures r.Ok? <==> IsDir(old(disk.fs), Parent(temp)) && Unfaulted(fault, pieces, mode, false)
    ensures r.Ok? ==> WrittenSoFar(old(disk.fs), disk.fs, temp, pieces, |pieces|)
    ensures r.Ok? ==> LeavesMode(disk.fs[temp].mode, mode, None, disk.umask)
    ensures r.Err? ==> disk.fs == old(disk.fs) || SomeWritten(old(disk.fs), disk.fs, temp, pieces)
    ensures Growing(old(disk.fs), trace, temp, pieces)
  {
    r, trace := WriteDirect(disk, temp, mode, pieces, fault);
  }

  method RemoveTemp(disk: Disk, temp: Path, cleanupWorks: bool, ghost fs: FS)
    requires temp != [] && temp !in fs && WellFormed(fs) && SameElsewhere(fs, disk.fs, temp)
    modifies disk
    ensures SameElsewhere(fs, disk.fs, temp) && (cleanupWorks ==> disk.fs == fs)
  {
    NothingUnder(fs, disk.fs, temp, temp);
    if cleanupWorks {
      if temp in disk.fs {
        var _ := disk.Remove(temp);
      }
      SameMap(fs, disk.fs, temp);
    }
  }

  lemma SameMap(fs: FS, s: FS, temp: Path)
    requires temp !in fs && temp !in s && SameElsewhere(fs, s, temp)
    ensures s == fs
  {
    forall q
      ensures q in s <==> q in fs
      ensures q in s ==> s[q] == fs[q]
    {
      assert q != temp ==> Get(s, q) == Get(fs, q);
    }
  }
}
