/** fs.write as the daemon handles it: size check, parents, guards, the write - and serial runs of such requests. */
module GuardedWrite {
  import opened Base
  import opened Paths
  import opened Trees
  import opened FileSystem
  import opened Listing
  import opened States
  import opened FsWrite

  // ---------------------------------------------------------------------
  // The guards
  // ---------------------------------------------------------------------

  /** Whether the request may go ahead on what was found, and then whether it changes the content. */
  function Guarded(h: Hash, found: Option<Node>, req: WriteRequest): Result<bool, WriteError> {
    if found.Some? && found.value.DirNode? then Err(PathIsDirectory)
    else if req.ifMissing && found.Some? then Err(PreconditionFailed)
    else if req.ifSha256.Some? && (found.None? || h(found.value.data) != req.ifSha256.value) then Err(PreconditionFailed)
    else if found.None? || |found.value.data| != |req.bytes| then Ok(true)
    else Ok(h(found.value.data) != h(req.bytes))
  }

  /** The guards as a client means them. */
  ghost predicate Allowed(h: Hash, content: Option<seq<Byte>>, req: WriteRequest) {
    (req.ifMissing ==> content.None?) &&
    (req.ifSha256.Some? ==> content.Some? && h(content.value) == req.ifSha256.value)
  }

  /** Short of a directory, the guards decide on the content alone; `changed` is false iff it stays the same. */
  lemma GuardsDecide(h: Hash, fs: FS, p: Path, req: WriteRequest)
    requires Injective(h)
    ensures Guarded(h, Get(fs, p), req).Ok? <==> !IsDir(fs, p) && Allowed(h, ContentAt(fs, p), req)
    ensures Guarded(h, Get(fs, p), req).Ok? ==>
              (Guarded(h, Get(fs, p), req).value <==> ContentAt(fs, p) != Some(req.bytes))
  {
    if IsFile(fs, p) && h(fs[p].data) == h(req.bytes) {
      assert fs[p].data == req.bytes;
    }
  }

  // ---------------------------------------------------------------------
  // The handler
  // ---------------------------------------------------------------------

  /** create_dir_all of the parent, if asked for. */
  function WithParents(fs: FS, p: Path, req: WriteRequest, umask: Mode): Result<FS, FsError>
    requires p != []
  {
    if req.createParent then MkdirAll(fs, Parent(p), umask) else Ok(fs)
  }

  /** Making the parents changes nothing at the path or at its temporary file's. */
  lemma ParentsKeepContent(fs: FS, p: Path, req: WriteRequest, umask: Mode, nonce: nat)
    requires WellFormed(fs) && p != [] && WithParents(fs, p, req, umask).Ok?
    ensures var made := WithParents(fs, p, req, umask).value;
            WellFormed(made) && Get(made, p) == Get(fs, p) &&
            Get(made, AtomicTempPath(p, nonce)) == Get(fs, AtomicTempPath(p, nonce))
  {
    if req.createParent {
      MkdirAllExact(fs, Parent(p), umask);
      TempIsSibling(p, nonce);
      assert !(p <= Parent(p)) && !(AtomicTempPath(p, nonce) <= Parent(p));
    }
  }

  /** What the caller sees of the path's content. */
  ghost predicate ContentStep(h: Hash, before: Option<seq<Byte>>, req: WriteRequest, r: Result<Written, WriteError>,
                              after: Option<seq<Byte>>)
  {
    (!Allowed(h, before, req) ==> r.Err? && after == before) &&
    (r.Ok? ==>
       after == Some(req.bytes) && r.value.bytesWritten == |req.bytes| && r.value.sha256 == h(req.bytes) &&
       (r.value.changed <==> before != Some(req.bytes))) &&
    (r.Err? && req.atomic ==> after == before) &&
    (before.Some? ==> after.Some?)
  }

  /** Away from the path itself at most missing parent directories are new, and only if they were asked for. */
  ghost predicate OnlyWritten(fs: FS, after: FS, p: Path, createParent: bool, umask: Mode) {
    forall q | q != p ::
      Get(after, q) == Get(fs, q) ||
      (createParent && q < p && q !in fs && Get(after, q) == Some(DirNode(DirDefault(umask))))
  }

  lemma ParentsMade(fs: FS, p: Path, req: WriteRequest, umask: Mode)
    requires WellFormed(fs) && p != []
    ensures var made := WithParents(fs, p, req, umask);
            (made.Ok? && IsDir(made.value, Parent(p)) <==>
               if req.createParent then !FileAbove(fs, p) else IsDir(fs, Parent(p))) &&
            (made.Ok? ==> OnlyWritten(fs, made.value, p, req.createParent, umask))
    ensures OnlyWritten(fs, fs, p, req.createParent, umask)
  {
    if req.createParent {
      MkdirAllExact(fs, Parent(p), umask);
      FileAboveParent(fs, p);
      MadeIsDir(fs, Parent(p), umask);
    }
  }

  lemma MadeIsDir(fs: FS, p: Path, umask: Mode)
    ensures MkdirAll(fs, p, umask).Ok? ==> IsDir(MkdirAll(fs, p, umask).value, p)
  {
  }

  lemma ThenWritten(fs: FS, made: FS, after: FS, p: Path, createParent: bool, umask: Mode)
    requires OnlyWritten(fs, made, p, createParent, umask) && SameElsewhere(made, after, p)
    ensures OnlyWritten(fs, after, p, createParent, umask)
  {
  }

  /**
   handle_fs_write. It succeeds exactly when the size, the parent directory, what is at the path, the guards and the
   faults allow it; a rejected request changes nothing but the parents it made first; an atomic one
   shows the whole old or the whole new content in every state on the way. The file is left with the mode asked for, and
   no other path has changed but for the parents.
   */
  method HandleFsWrite(disk: Disk, h: Hash, p: Path, req: WriteRequest, nonce: nat, pieces: seq<seq<Byte>>,
                       fault: Fault, cleanupWorks: bool) returns (r: Result<Written, WriteError>, ghost trace: seq<FS>)
    requires Injective(h) && WellFormed(disk.fs) && p != []
    requires Flatten(pieces) == req.bytes
    modifies disk
    ensures var fs, made := old(disk.fs), WithParents(old(disk.fs), p, req, disk.umask);
            (r.Ok? <==> |req.bytes| <= MAX_BYTES && !IsDir(fs, p) &&
                        (if req.createParent then !FileAbove(fs, p) else IsDir(fs, Parent(p))) &&
                        Allowed(h, ContentAt(fs, p), req) && Unfaulted(fault, pieces, req.mode, req.atomic) &&
                        (req.atomic ==> AtomicTempPath(p, nonce) !in fs)) &&
            (|req.bytes| > MAX_BYTES || made.Err? ==> disk.fs == fs) &&
            (|req.bytes| <= MAX_BYTES && made.Ok? && (IsDir(fs, p) || !Allowed(h, ContentAt(fs, p), req)) ==>
               disk.fs == made.value) &&
            (req.atomic && made.Ok? ==>
               AllOldOrNew(made.value, trace, p, AtomicTempPath(p, nonce), req.bytes) &&
               (r.Ok? ==> AtomicTempPath(p, nonce) !in disk.fs) &&
               (r.Err? && cleanupWorks && |req.bytes| <= MAX_BYTES && AtomicTempPath(p, nonce) !in fs ==>
                  disk.fs == made.value))
    ensures ContentStep(h, ContentAt(old(disk.fs), p), req, r, ContentAt(disk.fs, p))
    ensures r.Ok? ==>
              p in disk.fs && r.value.mode == Some(disk.fs[p].mode) &&
              LeavesMode(disk.fs[p].mode, req.mode, if req.atomic then None else ModeAt(old(disk.fs), p), disk.umask)
    ensures r.Ok? || !req.atomic ==> OnlyWritten(old(disk.fs), disk.fs, p, req.createParent, disk.umask)
  {
    ghost var fs := disk.fs;
    trace := [];
    ParentsMade(fs, p, req, disk.umask);
    if |req.bytes| > MAX_BYTES {
      return Err(TooLarge), [];
    }
    if req.createParent {
      var made := disk.CreateDirAll(Parent(p));
      if made.Err? {
        return Err(OnFs(made.error)), [];
      }
    }
    ghost var ready := disk.fs;
    ParentsMade(fs, p, req, disk.umask);
    ParentsKeepContent(fs, p, req, disk.umask, nonce);
    assert ModeAt(ready, p) == ModeAt(fs, p) by {
      assert Get(ready, p) == Get(fs, p);
    }
    assert Get(ready, p) == Get(fs, p) && Get(ready, AtomicTempPath(p, nonce)) == Get(fs, AtomicTempPath(p, nonce));
    assert IsDir(ready, p) <==> IsDir(fs, p);
    assert ready == WithParents(fs, p, req, disk.umask).value;
    assert ContentAt(ready, p) == ContentAt(fs, p);
    GuardsDecide(h, ready, p, req);
    BelowAFile(ready, p);
    hide *;
    var found := Stat(disk.fs, p);
    StatSays(disk.fs, p);
    if found.Err? {
      StatFailure(h, ready, fs, p, req);
      return Err(OnFs(found.error)), [];
    }
    var guarded := Guarded(h, found.value, req);
    if guarded.Err? {
      RejectedStep(h, fs, ready, p, req, guarded.error);
      return Err(guarded.error), [];
    }
    var wrote;
    wrote, trace := Write(disk, p, req, nonce, pieces, fault, cleanupWorks);
    WrittenModes(disk.fs, p, req.bytes);
    if wrote.Ok? || !req.atomic {
      ThenWritten(fs, ready, disk.fs, p, req.createParent, disk.umask);
    }
    r := if wrote.Ok? then Ok(Written(|req.bytes|, ModeAt(disk.fs, p), h(req.bytes), guarded.value)) else Err(wrote.error);
    WrittenStep(h, fs, ready, disk.fs, p, req, wrote, r);
  }

  method Write(disk: Disk, p: Path, req: WriteRequest, nonce: nat, pieces: seq<seq<Byte>>, fault: Fault, cleanupWorks: bool)
    returns (r: Result<(), WriteError>, ghost trace: seq<FS>)
    requires WellFormed(disk.fs) && p != [] && !IsDir(disk.fs, p) && Flatten(pieces) == req.bytes
    modifies disk
    ensures r.Ok? <==> IsDir(old(disk.fs), Parent(p)) && Unfaulted(fault, pieces, req.mode, req.atomic) &&
                       (req.atomic ==> AtomicTempPath(p, nonce) !in old(disk.fs))
    ensures r.Ok? ==> ContentAt(disk.fs, p) == Some(req.bytes)
    ensures r.Ok? ==>
              LeavesMode(disk.fs[p].mode, req.mode, if req.atomic then None else ModeAt(old(disk.fs), p), disk.umask)
    ensures r.Ok? || !req.atomic ==> SameElsewhere(old(disk.fs), disk.fs, p)
    ensures IsFile(old(disk.fs), p) ==> IsFile(disk.fs, p)
    ensures req.atomic ==>
              AllOldOrNew(old(disk.fs), trace, p, AtomicTempPath(p, nonce), req.bytes) &&
              (r.Ok? ==> AtomicTempPath(p, nonce) !in disk.fs) &&
              (r.Err? ==> ContentAt(disk.fs, p) == ContentAt(old(disk.fs), p) &&
                          (cleanupWorks && AtomicTempPath(p, nonce) !in old(disk.fs) ==> disk.fs == old(disk.fs)))
  {
    assert pieces[..|pieces|] == pieces;
    if req.atomic {
      TempIsSibling(p, nonce);
      var temp := AtomicTempPath(p, nonce);
      hide AtomicTempPath;
      ghost var fs := disk.fs;
      r, trace := WriteAtomic(disk, p, temp, req.mode, pieces, fault, cleanupWorks);
      assert r.Err? ==> Get(disk.fs, p) == Get(fs, p);
    } else {
      r, trace := WriteDirect(disk, p, req.mode, pieces, fault);
    }
  }

  lemma WrittenModes(fs: FS, p: Path, bytes: seq<Byte>)
    ensures ContentAt(fs, p) == Some(bytes) ==> p in fs && ModeAt(fs, p) == Some(fs[p].mode)
  {
  }

  lemma BelowAFile(fs: FS, p: Path)
    requires WellFormed(fs) && p != []
    ensures FileAbove(fs, p) ==> p !in fs && !IsDir(fs, Parent(p))
  {
    if p in fs {
      NoFileAboveExisting(fs, p);
    }
    if IsDir(fs, Parent(p)) {
      NoFileAboveExisting(fs, Parent(p));
      FileAboveParent(fs, p);
    }
  }

  lemma StatSays(fs: FS, p: Path)
    ensures Stat(fs, p).Err? ==> FileAbove(fs, p)
    ensures Stat(fs, p).Ok? ==> Stat(fs, p).value == Get(fs, p)
  {
  }

  lemma StatFailure(h: Hash, ready: FS, fs: FS, p: Path, req: WriteRequest)
    ensures forall e :: ContentAt(ready, p) == ContentAt(fs, p) ==>
              ContentStep(h, ContentAt(fs, p), req, Err(e), ContentAt(ready, p))
    ensures AllOldOrNew(ready, [], p, p, req.bytes)
  {
  }

  lemma RejectedStep(h: Hash, fs: FS, ready: FS, p: Path, req: WriteRequest, e: WriteError)
    requires ContentAt(ready, p) == ContentAt(fs, p)
    ensures ContentStep(h, ContentAt(fs, p), req, Err(e), ContentAt(ready, p))
  {
  }

  lemma WrittenStep(h: Hash, fs: FS, ready: FS, after: FS, p: Path, req: WriteRequest, wrote: Result<(), WriteError>,
                    r: Result<Written, WriteError>)
    requires ContentAt(ready, p) == ContentAt(fs, p) && Allowed(h, ContentAt(fs, p), req)
    requires r.Ok? <==> wrote.Ok?
    requires wrote.Ok? ==>
               ContentAt(after, p) == Some(req.bytes) &&
               r.value.bytesWritten == |req.bytes| && r.value.sha256 == h(req.bytes) &&
               (r.value.changed <==> ContentAt(ready, p) != Some(req.bytes))
    requires wrote.Err? && req.atomic ==> ContentAt(after, p) == ContentAt(ready, p)
    requires IsFile(ready, p) ==> IsFile(after, p)
    ensures ContentStep(h, ContentAt(fs, p), req, r, ContentAt(after, p))
  {
  }

  // ---------------------------------------------------------------------
  // Serial runs
  // ---------------------------------------------------------------------

  /** Requests handled one after the other; `contents[i]` is what the path holds before request `i`. */
  ghost predicate SerialRun(h: Hash, contents: seq<Option<seq<Byte>>>, reqs: seq<WriteRequest>,
                            outcomes: seq<Result<Written, WriteError>>)
  {
    |reqs| == |outcomes| && |contents| == |reqs| + 1 &&
    forall i | 0 <= i < |reqs| :: StepAt(h, contents, reqs, outcomes, i)
  }

  ghost predicate StepAt(h: Hash, contents: seq<Option<seq<Byte>>>, reqs: seq<WriteRequest>,
                         outcomes: seq<Result<Written, WriteError>>, i: nat)
    requires i < |reqs| == |outcomes| && |contents| == |reqs| + 1
  {
    ContentStep(h, contents[i], reqs[i], outcomes[i], contents[i + 1])
  }

  lemma {:induction false} ContentStays(h: Hash, contents: seq<Option<seq<Byte>>>, reqs: seq<WriteRequest>,
                                        outcomes: seq<Result<Written, WriteError>>, i: nat, j: nat)
    requires SerialRun(h, contents, reqs, outcomes) && i <= j < |contents| && contents[i].Some?
    ensures contents[j].Some?
    decreases j - i
  {
    if i < j {
      assert StepAt(h, contents, reqs, outcomes, i);
      ContentStays(h, contents, reqs, outcomes, i + 1, j);
    }
  }

  /** In any serial run, whatever else is in it, at most one if-missing write takes effect. */
  lemma AtMostOneCreates(h: Hash, contents: seq<Option<seq<Byte>>>, reqs: seq<WriteRequest>,
                         outcomes: seq<Result<Written, WriteError>>, i: nat, j: nat)
    requires SerialRun(h, contents, reqs, outcomes) && i < j < |reqs|
    requires reqs[i].ifMissing && reqs[j].ifMissing && outcomes[i].Ok?
    ensures outcomes[j].Err? && contents[j + 1] == contents[j]
  {
    assert StepAt(h, contents, reqs, outcomes, i);
    ContentStays(h, contents, reqs, outcomes, i + 1, j);
    assert StepAt(h, contents, reqs, outcomes, j);
  }

  /** Between an accepted write and the next one, failing and rejected atomic requests leave its content standing. */
  lemma {:induction false} LastWriteStands(h: Hash, contents: seq<Option<seq<Byte>>>, reqs: seq<WriteRequest>,
                                           outcomes: seq<Result<Written, WriteError>>, i: nat, j: nat)
    requires SerialRun(h, contents, reqs, outcomes) && i < j < |contents| && outcomes[i].Ok?
    requires forall k | i < k < j :: outcomes[k].Err? && reqs[k].atomic
    ensures contents[j] == Some(reqs[i].bytes)
    decreases j
  {
    if j == i + 1 {
      assert StepAt(h, contents, reqs, outcomes, i);
    } else {
      LastWriteStands(h, contents, reqs, outcomes, i, j - 1);
      assert StepAt(h, contents, reqs, outcomes, j - 1);
    }
  }

  /**
   No update is lost: a write guarded by a digest that is accepted after another accepted write, with only failed
   or rejected atomic requests between them, was guarded by the digest of exactly that write's content.
   */
  lemma GuardSeesLastWrite(h: Hash, contents: seq<Option<seq<Byte>>>, reqs: seq<WriteRequest>,
                           outcomes: seq<Result<Written, WriteError>>, i: nat, j: nat)
    requires SerialRun(h, contents, reqs, outcomes) && i < j < |reqs|
    requires outcomes[i].Ok? && forall k | i < k < j :: outcomes[k].Err? && reqs[k].atomic
    requires reqs[j].ifSha256.Some?
    ensures outcomes[j].Ok? ==> reqs[j].ifSha256 == Some(h(reqs[i].bytes))
    ensures reqs[j].ifSha256 != Some(h(reqs[i].bytes)) ==>
              outcomes[j].Err? && contents[j + 1] == Some(reqs[i].bytes)
  {
    LastWriteStands(h, contents, reqs, outcomes, i, j);
    assert StepAt(h, contents, reqs, outcomes, j);
  }
}
